/** The guest's virtual clock (libcpu/src/cpus.c).

    The clock follows the host's monotonic clock while it is enabled, and can be slowed down
    by a scale factor. Each call takes the host time that get_clock returns during it; host
    times are 64-bit and grow from call to call.
 */
module VirtualClock {
  import opened Arith

  const INT64_MAX: int := 0x7fff_ffff_ffff_ffff

  /** TimersState, as far as the clock goes. */
  datatype Timers = Timers(offset: int, enabled: bool, scale: int, prev: int, prevScaled: int)

  const START := Timers(0, false, 1, 0, 0)

  datatype Op = Get | Enable | Disable | Scale(factor: int)

  // ---- What the calls do ----

  /** cpu_get_clock returns this at host time `host`. */
  function Reading(t: Timers, host: int): int
    requires t.scale >= 1
  {
    if !t.enabled then (if t.scale > 1 then t.prevScaled else t.offset)
    else if t.scale > 1 then t.prevScaled + (host + t.offset - t.prev) / t.scale
    else host + t.offset
  }

  /** A scaled clock remembers when it was read. */
  function AfterGet(t: Timers, host: int): Timers
    requires t.scale >= 1
  {
    if t.enabled && t.scale > 1 then t.(prev := host + t.offset, prevScaled := Reading(t, host)) else t
  }

  function AfterEnable(t: Timers, host: int): Timers {
    if t.enabled then t
    else if t.scale > 1 then t.(offset := t.offset - host, enabled := true, prev := t.offset, prevScaled := t.offset)
    else t.(offset := t.offset - host, enabled := true)
  }

  function AfterDisable(t: Timers, host: int): Timers
    requires t.scale >= 1
  {
    if t.enabled then AfterGet(t, host).(offset := Reading(t, host), enabled := false) else t
  }

  function AfterScale(t: Timers, host: int, factor: int): Timers
    requires t.scale >= 1
  {
    (if t.scale == 1 then t.(prev := Reading(t, host), prevScaled := Reading(t, host)) else t).(scale := factor)
  }

  function After(t: Timers, op: Op, host: int): Timers
    requires t.scale >= 1
  {
    match op
    case Get => AfterGet(t, host)
    case Enable => AfterEnable(t, host)
    case Disable => AfterDisable(t, host)
    case Scale(factor) => AfterScale(t, host, factor)
  }

  // ---- Invariant ----

  /** `last` is the last host time seen, `shown` the last time that was read. */
  ghost predicate Ok(t: Timers, last: int, shown: int) {
    && 0 <= last <= INT64_MAX && t.scale >= 1 && 0 <= shown
    && (t.enabled ==> -INT64_MAX <= t.offset <= 0 && shown <= last + t.offset)
    && (!t.enabled ==> 0 <= shown <= t.offset <= last)
    && (t.scale > 1 ==> shown <= t.prevScaled <= t.prev)
    && (t.scale > 1 && t.enabled ==> t.prev <= last + t.offset)
    && (t.scale > 1 && !t.enabled ==> t.prevScaled == t.offset)
  }

  /** The assertions of cpu_get_clock, and that no sum or difference in it leaves 64 bits. */
  ghost predicate Asserted(t: Timers, host: int) {
    t.enabled && t.scale > 1 ==>
      var cur := host + t.offset;
      && cur - t.prev > 0 && 0 <= cur <= INT64_MAX && cur >= t.prev
      && cur - t.prev <= INT64_MAX
      && t.prevScaled <= Reading(t, host) <= INT64_MAX && Reading(t, host) >= 0
  }

  /** Reading the clock, at any later host time, shows no less than before and no more than unscaled time would. */
  lemma GetKeeps(t: Timers, last: int, shown: int, host: int)
    requires Ok(t, last, shown) && last < host <= INT64_MAX
    ensures Asserted(t, host) && shown <= Reading(t, host)
    ensures t.enabled ==> Reading(t, host) <= host + t.offset
    ensures Ok(AfterGet(t, host), host, Reading(t, host))
  {
    if t.enabled && t.scale > 1 { DivBounds(host + t.offset - t.prev, t.scale); }
  }

  /** Starting and stopping the clock never moves it. */
  lemma SwitchKeeps(t: Timers, last: int, shown: int, host: int)
    requires Ok(t, last, shown) && last < host <= INT64_MAX
    ensures Ok(AfterEnable(t, host), host, shown) && Ok(AfterDisable(t, host), host, if t.enabled then Reading(t, host) else shown)
    ensures Reading(AfterEnable(t, host), host) == Reading(t, host) == Reading(AfterDisable(t, host), host)
  {
    GetKeeps(t, last, shown, host);
    if !t.enabled && t.scale > 1 { assert 0 / t.scale == 0; }
  }

  lemma ScaleKeeps(t: Timers, last: int, shown: int, host: int, factor: int)
    requires Ok(t, last, shown) && last < host <= INT64_MAX && factor >= 1
    ensures Ok(AfterScale(t, host, factor), host, shown)
  {
    GetKeeps(t, last, shown, host);
  }

  /** Between two reads the clock advances by the host time that passed, divided by the scale and rounded down;
      a stopped clock stands still. */
  lemma Rate(t: Timers, last: int, shown: int, host: int, later: int)
    requires Ok(t, last, shown) && last < host < later <= INT64_MAX
    ensures Reading(AfterGet(t, host), later) - Reading(t, host) == if t.enabled then (later - host) / t.scale else 0
  {
    if t.enabled && t.scale == 1 { assert (later - host) / 1 == later - host; }
  }

  /** A clock that is started advances from what it showed, at its scale; one that runs already is not disturbed. */
  lemma Starts(t: Timers, last: int, shown: int, host: int, later: int)
    requires Ok(t, last, shown) && last < host < later <= INT64_MAX
    ensures var r := AfterEnable(t, host);
      && (if t.enabled then r == t else Reading(r, later) - Reading(t, host) == (later - host) / t.scale)
      && Reading(AfterEnable(AfterGet(t, host), host), later) - Reading(t, host) == (later - host) / t.scale
  {
    if t.enabled && t.scale == 1 { assert (later - host) / 1 == later - host; }
  }

  /** A clock that is stopped keeps showing what it showed. */
  lemma Stops(t: Timers, last: int, shown: int, host: int, later: int)
    requires Ok(t, last, shown) && last < host < later <= INT64_MAX
    ensures Reading(AfterDisable(t, host), later) == Reading(t, host) == Reading(AfterDisable(AfterGet(t, host), host), later)
  {
    if t.enabled && t.scale > 1 { assert 0 / t.scale == 0; }
  }

  /** A scale that is set on an unscaled clock counts from now on. One that replaces another counts from the last read
      on, and going back to no scale catches up with the time that was lost. */
  lemma ScaleRate(t: Timers, last: int, shown: int, read: int, host: int, factor: int, later: int)
    requires Ok(t, last, shown) && last < read < host < later <= INT64_MAX && factor >= 1
    ensures !t.enabled ==> Reading(AfterScale(t, host, factor), later) == Reading(t, host)
    ensures t.enabled && t.scale == 1 ==> Reading(AfterScale(t, host, factor), later) - Reading(t, host) == (later - host) / factor
    ensures t.enabled && t.scale > 1 && factor > 1 ==>
              Reading(AfterScale(AfterGet(t, read), host, factor), later) - Reading(t, read) == (later - read) / factor
    ensures t.enabled && t.scale > 1 && factor == 1 ==> Reading(AfterScale(t, host, factor), later) == later + t.offset
  {
    if factor == 1 { assert (later - host) / 1 == later - host; }
  }

  // ---- Runs ----

  /** Calls with their host times, and the states between them. */
  ghost predicate IsRun(states: seq<Timers>, ops: seq<Op>, hosts: seq<int>) {
    && |states| == |ops| + 1 && |hosts| == |ops| && states[0] == START
    && (forall i | 0 <= i < |ops| :: 0 < hosts[i] <= INT64_MAX && (ops[i].Scale? ==> ops[i].factor >= 1))
    && (forall i, j | 0 <= i < j < |ops| :: hosts[i] < hosts[j])
    && (forall i | 0 <= i < |ops| && states[i].scale >= 1 :: states[i + 1] == After(states[i], ops[i], hosts[i]))
  }

  function LastHost(hosts: seq<int>, n: nat): int
    requires n <= |hosts|
  {
    if n == 0 then 0 else hosts[n - 1]
  }

  /** The last time that cpu_get_clock returned to a caller before call n. */
  function LastShown(states: seq<Timers>, ops: seq<Op>, hosts: seq<int>, n: nat): int
    requires n <= |ops| <= |hosts| && n <= |states|
  {
    if n == 0 then 0
    else if ops[n - 1].Get? && states[n - 1].scale >= 1 then Reading(states[n - 1], hosts[n - 1])
    else LastShown(states, ops, hosts, n - 1)
  }

  lemma {:induction false} RunOk(states: seq<Timers>, ops: seq<Op>, hosts: seq<int>, n: nat)
    requires IsRun(states, ops, hosts) && n <= |ops|
    ensures Ok(states[n], LastHost(hosts, n), LastShown(states, ops, hosts, n))
  {
    if n == 0 {
    } else {
      RunOk(states, ops, hosts, n - 1);
      var t, last, shown, host := states[n - 1], LastHost(hosts, n - 1), LastShown(states, ops, hosts, n - 1), hosts[n - 1];
      assert last < host;
      match ops[n - 1]
      case Get => GetKeeps(t, last, shown, host);
      case Enable => SwitchKeeps(t, last, shown, host);
      case Disable =>
        SwitchKeeps(t, last, shown, host);
        GetKeeps(t, last, shown, host);
        Weaker(AfterDisable(t, host), host, if t.enabled then Reading(t, host) else shown, shown);
      case Scale(factor) => ScaleKeeps(t, last, shown, host, factor);
    }
  }

  lemma Weaker(t: Timers, last: int, shown: int, less: int)
    requires Ok(t, last, shown) && 0 <= less <= shown
    ensures Ok(t, last, less)
  {
  }

  /** The clock never runs backwards: in every run of reads, starts, stops and scale changes, a later read shows at
      least as much as an earlier one, and the assertions in cpu_get_clock hold at every call. */
  lemma {:induction false} Monotone(states: seq<Timers>, ops: seq<Op>, hosts: seq<int>, i: nat, j: nat)
    requires IsRun(states, ops, hosts) && i < j < |ops| && ops[i].Get? && ops[j].Get?
    ensures states[i].scale >= 1 && states[j].scale >= 1
    ensures Reading(states[i], hosts[i]) <= Reading(states[j], hosts[j]) && Asserted(states[j], hosts[j])
  {
    RunOk(states, ops, hosts, i);
    RunOk(states, ops, hosts, j);
    GetKeeps(states[j], LastHost(hosts, j), LastShown(states, ops, hosts, j), hosts[j]);
    ShownGrows(states, ops, hosts, i, j);
  }

  lemma {:induction false} ShownGrows(states: seq<Timers>, ops: seq<Op>, hosts: seq<int>, i: nat, j: nat)
    requires IsRun(states, ops, hosts) && i < j <= |ops| && ops[i].Get? && states[i].scale >= 1
    ensures Reading(states[i], hosts[i]) <= LastShown(states, ops, hosts, j)
    decreases j
  {
    if i == j - 1 {
    } else {
      ShownGrows(states, ops, hosts, i, j - 1);
      RunOk(states, ops, hosts, j - 1);
      GetKeeps(states[j - 1], LastHost(hosts, j - 1), LastShown(states, ops, hosts, j - 1), hosts[j - 1]);
    }
  }

  /** The clock was started and not stopped since. */
  predicate Started(ops: seq<Op>, n: nat)
    requires n <= |ops|
  {
    n > 0 && (ops[n - 1].Enable? || (!ops[n - 1].Disable? && Started(ops, n - 1)))
  }

  /** The host time that passed while the clock was started, up to call n. */
  function Uptime(ops: seq<Op>, hosts: seq<int>, n: nat): int
    requires n <= |ops| == |hosts|
  {
    if n == 0 then 0
    else Uptime(ops, hosts, n - 1) + if Started(ops, n - 1) then hosts[n - 1] - LastHost(hosts, n - 1) else 0
  }

  /** In every run, the clock shows at most the host time that passed while it was started, and exactly that
      if no scale was ever set. */
  lemma {:induction false} ShowsUptime(states: seq<Timers>, ops: seq<Op>, hosts: seq<int>, n: nat, host: int)
    requires IsRun(states, ops, hosts) && n <= |ops| && LastHost(hosts, n) < host <= INT64_MAX
    ensures states[n].scale >= 1 && (states[n].enabled <==> Started(ops, n))
    ensures var up := Uptime(ops, hosts, n) + if Started(ops, n) then host - LastHost(hosts, n) else 0;
      Reading(states[n], host) <= up && ((forall i | 0 <= i < n :: !ops[i].Scale?) ==> Reading(states[n], host) == up)
  {
    RunOk(states, ops, hosts, n);
    GetKeeps(states[n], LastHost(hosts, n), LastShown(states, ops, hosts, n), host);
    OffsetIsUptime(states, ops, hosts, n);
  }

  lemma {:induction false} OffsetIsUptime(states: seq<Timers>, ops: seq<Op>, hosts: seq<int>, n: nat)
    requires IsRun(states, ops, hosts) && n <= |ops|
    ensures states[n].enabled <==> Started(ops, n)
    ensures var up := Uptime(ops, hosts, n) - if states[n].enabled then LastHost(hosts, n) else 0;
      states[n].offset <= up && ((forall i | 0 <= i < n :: !ops[i].Scale?) ==> states[n].offset == up && states[n].scale == 1)
  {
    if n == 0 {
    } else {
      OffsetIsUptime(states, ops, hosts, n - 1);
      RunOk(states, ops, hosts, n - 1);
      GetKeeps(states[n - 1], LastHost(hosts, n - 1), LastShown(states, ops, hosts, n - 1), hosts[n - 1]);
    }
  }

  // ---- In place ----

  class Clock {
    var timers: Timers
    ghost var last: int
    ghost var shown: int

    ghost predicate Valid()
      reads this
    {
      Ok(timers, last, shown)
    }

    constructor ()
      ensures Valid() && timers == START && last == 0
    {
      timers, last, shown := START, 0, 0;
    }

    /** cpu_get_clock */
    method GetClock(host: int) returns (r: int)
      requires Valid() && last < host <= INT64_MAX
      modifies this
      ensures Valid() && timers == AfterGet(old(timers), host) && last == host
      ensures r == Reading(old(timers), host) == shown && r >= old(shown)
    {
      GetKeeps(timers, last, shown, host);
      if !timers.enabled {
        r := if timers.scale > 1 then timers.prevScaled else timers.offset;
      } else if timers.scale > 1 {
        var cur := host + timers.offset;
        var increment := cur - timers.prev;
        assert increment > 0;
        var result := timers.prevScaled + increment / timers.scale;
        assert cur >= 0 && cur >= timers.prev;
        assert result >= 0 && result >= timers.prevScaled;
        timers := timers.(prevScaled := result, prev := cur);
        r := result;
      } else {
        r := host + timers.offset;
      }
      last, shown := host, r;
    }

    /** cpu_enable_ticks */
    method EnableTicks(host: int)
      requires Valid() && last < host <= INT64_MAX
      modifies this
      ensures Valid() && timers == AfterEnable(old(timers), host) && last == host && shown == old(shown)
      ensures timers.enabled && (old(timers).enabled ==> timers == old(timers))
      ensures forall later | host < later <= INT64_MAX && !old(timers).enabled ::
                Reading(timers, later) == Reading(old(timers), host) + (later - host) / timers.scale
    {
      SwitchKeeps(timers, last, shown, host);
      if !timers.enabled {
        timers := timers.(offset := timers.offset - host, enabled := true);
        if timers.scale > 1 {
          timers := timers.(prev := host + timers.offset);
          timers := timers.(prevScaled := timers.prev);
        }
      }
      last := host;
    }

    /** cpu_disable_ticks */
    method DisableTicks(host: int)
      requires Valid() && last < host <= INT64_MAX
      modifies this
      ensures Valid() && timers == AfterDisable(old(timers), host) && last == host && shown >= old(shown)
      ensures !timers.enabled && forall later | host < later <= INT64_MAX :: Reading(timers, later) == Reading(old(timers), host)
    {
      SwitchKeeps(timers, last, shown, host);
      if timers.enabled {
        var r := GetClock(host);
        timers := timers.(offset := r, enabled := false);
      }
      last := host;
    }

    /** cpu_enable_scaling */
    method EnableScaling(host: int, scale: int)
      requires Valid() && last < host <= INT64_MAX && scale >= 1
      modifies this
      ensures Valid() && timers == AfterScale(old(timers), host, scale) && last == host && shown >= old(shown)
      ensures timers.scale == scale && timers.enabled == old(timers).enabled
      ensures forall later | host < later <= INT64_MAX && timers.enabled && old(timers).scale == 1 ::
                Reading(timers, later) == Reading(old(timers), host) + (later - host) / scale
    {
      ScaleKeeps(timers, last, shown, host, scale);
      if timers.scale == 1 {
        var r := GetClock(host);
        timers := timers.(prev := r, prevScaled := r);
      }
      timers := timers.(scale := scale);
      last := host;
    }
  }
}

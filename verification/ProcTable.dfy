/** The process table as a value: slots on a ring, and what one yield does to them. */
module ProcTable {
  import opened Machine

  datatype ProcState = NeverRan | Running | Yielded

  datatype Proc = Proc(pid: int, zombie: bool, exitStatus: int, state: ProcState)

  type Slots = seq<Option<Proc>>

  // ---------------------------------------------------------------- the ring

  /** How many steps lead from slot c to slot i, at least one and at most n. */
  function Dist(c: int, i: int, n: int): int {
    if i > c then i - c else i - c + n
  }

  /** The first leg of a way does not change what is left of it. */
  lemma Legs(c: int, t: int, i: int, n: int)
    requires 0 <= c < n && 0 <= t < n && 0 <= i < n
    ensures 1 <= Dist(c, i, n) <= n && (Dist(c, i, n) == n <==> c == i) && (Dist(c, i, n) == Dist(c, t, n) ==> i == t)
    ensures Dist(c, t, n) < Dist(c, i, n) ==> Dist(t, i, n) == Dist(c, i, n) - Dist(c, t, n)
    ensures Dist(c, t, n) >= Dist(c, i, n) ==> Dist(t, i, n) == Dist(c, i, n) - Dist(c, t, n) + n
  {
  }

  // ---------------------------------------------------------------- the table

  predicate Live(slot: Option<Proc>) {
    slot.Some? && !slot.value.zombie
  }

  ghost function Filled(procs: Slots): set<int> {
    set i | 0 <= i < |procs| && procs[i].Some?
  }

  ghost function LiveSlots(procs: Slots): set<int> {
    set i | 0 <= i < |procs| && Live(procs[i])
  }

  lemma FilledGrown(procs: Slots, n: nat)
    ensures Filled(procs + seq(n, _ => None)) == Filled(procs)
  {
  }

  lemma FilledInside(procs: Slots)
    ensures forall i :: i in Filled(procs) ==> 0 <= i < |procs| && procs[i].Some?
  {
  }

  lemma FilledAdded(procs: Slots, i: int, p: Proc)
    requires 0 <= i < |procs| && procs[i] == None
    ensures Filled(procs[i := Some(p)]) == Filled(procs) + {i} && |Filled(procs[i := Some(p)])| == |Filled(procs)| + 1
  {
    assert Filled(procs[i := Some(p)]) == Filled(procs) + {i};
  }

  datatype State = State(procs: Slots, current: nat)

  /** Every process sits in the slot of its pid, and only the current one may be running. */
  ghost predicate Wf(s: State) {
    && s.current < |s.procs| && s.procs[s.current].Some?
    && (forall i :: 0 <= i < |s.procs| && s.procs[i].Some? ==> s.procs[i].value.pid == i + 1)
    && (forall i :: 0 <= i < |s.procs| && s.procs[i].Some? && s.procs[i].value.state == Running ==> i == s.current)
  }

  // ---------------------------------------------------------------- one yield

  /** t is the live slot nearest to the current one, which itself comes last. */
  ghost predicate IsNextLive(s: State, t: int) {
    && 0 <= t < |s.procs| && Live(s.procs[t])
    && forall j :: 0 <= j < |s.procs| && Live(s.procs[j]) ==> Dist(s.current, t, |s.procs|) <= Dist(s.current, j, |s.procs|)
  }

  /** proc_switch: a process that never ran starts. */
  function Entered(p: Proc): Proc {
    if p.state == NeverRan then p.(state := Running) else p
  }

  /** The table after a yield that picked t: the slots passed are empty, the process that yielded is
      still there, and all the others are as they were. */
  ghost predicate Switched(s: State, t: int, s': State)
    requires Wf(s) && 0 <= t < |s.procs|
  {
    var n := |s.procs|;
    var yielded := s.procs[s.current := Some(s.procs[s.current].value.(state := Yielded))];
    && |s'.procs| == n && s'.current == t
    && (forall i :: 0 <= i < n && Dist(s.current, i, n) < Dist(s.current, t, n) ==> s'.procs[i] == None)
    && (forall i :: 0 <= i < n && Dist(s.current, i, n) > Dist(s.current, t, n) ==> s'.procs[i] == yielded[i])
    && yielded[t].Some? && s'.procs[t] == Some(Entered(yielded[t].value))
  }

  /** What procm_sched_yield does, when it does not panic. */
  ghost predicate Yields(s: State, s': State) {
    Wf(s) && exists t :: IsNextLive(s, t) && Switched(s, t, s')
  }

  /** A yield reaps the zombies it passes and nobody else: no live process, and not the one that yields.
      The state stays well-formed, so proc_switch's assertion never fails. */
  lemma YieldKeeps(s: State, s': State)
    requires Yields(s, s')
    ensures Wf(s') && Live(s'.procs[s'.current]) && s'.procs[s.current].Some?
    ensures LiveSlots(s'.procs) == LiveSlots(s.procs)
    ensures Filled(s'.procs) <= Filled(s.procs)
    ensures forall i :: i in Filled(s.procs) - Filled(s'.procs) ==> s.procs[i].value.zombie && i != s.current
  {
    var t :| IsNextLive(s, t) && Switched(s, t, s');
    forall i | 0 <= i < |s.procs| ensures i == s.current || i == t || Dist(s.current, i, |s.procs|) != Dist(s.current, t, |s.procs|) {
      Legs(s.current, t, i, |s.procs|);
    }
    Legs(s.current, t, s.current, |s.procs|);
  }

  /** The process picked is determined, so a yield is deterministic. */
  lemma NextIsUnique(s: State, t: int, t': int)
    requires Wf(s) && IsNextLive(s, t) && IsNextLive(s, t')
    ensures t == t'
  {
    Legs(s.current, t, t', |s.procs|);
  }

  /** Somebody can be picked as long as anybody is live. */
  lemma {:induction false} NextExists(s: State, i: int)
    requires Wf(s) && 0 <= i < |s.procs| && Live(s.procs[i])
    ensures exists t :: IsNextLive(s, t)
    decreases Dist(s.current, i, |s.procs|)
  {
    if !IsNextLive(s, i) {
      var j :| 0 <= j < |s.procs| && Live(s.procs[j]) && Dist(s.current, j, |s.procs|) < Dist(s.current, i, |s.procs|);
      NextExists(s, j);
    }
  }

  /** The ring runs upward: what comes next is the lowest live slot above the current one, or else the
      lowest of all, the current one last. */
  lemma RingOrder(s: State, t: int)
    requires Wf(s) && 0 <= t < |s.procs| && Live(s.procs[t])
    ensures IsNextLive(s, t) <==>
            if t > s.current then forall j :: s.current < j < t ==> !Live(s.procs[j])
            else forall j :: s.current < j < |s.procs| || 0 <= j < t ==> !Live(s.procs[j])
  {
  }

  /** A process that never ran is entered when it is picked, any other goes on where it yielded; and nobody
      becomes one that never ran. */
  lemma EnteredOnce(s: State, s': State)
    requires Yields(s, s')
    ensures var p, p' := s.procs[s'.current].value, s'.procs[s'.current].value;
            if p.state == NeverRan && s'.current != s.current then p' == p.(state := Running)
            else p'.state == Yielded
    ensures forall i :: i in Filled(s'.procs) && s'.procs[i].value.state == NeverRan ==>
              i in Filled(s.procs) && s.procs[i].value.state == NeverRan && i != s'.current
  {
    var t :| IsNextLive(s, t) && Switched(s, t, s');
    forall i | 0 <= i < |s.procs| ensures i == t || Dist(s.current, i, |s.procs|) != Dist(s.current, t, |s.procs|) {
      Legs(s.current, t, i, |s.procs|);
    }
  }

  // ---------------------------------------------------------------- a yield under way

  /** The slots up to some distance from the caller have been passed and emptied: none was live. */
  ghost predicate Reaped(was: Slots, caller: int, passed: int, procs: Slots) {
    && |procs| == |was|
    && (forall i :: 0 <= i < |was| && Dist(caller, i, |was|) <= passed ==> procs[i] == None && !Live(was[i]))
    && (forall i :: 0 <= i < |was| && Dist(caller, i, |was|) > passed ==> procs[i] == was[i])
  }

  /** t is the filled slot nearest to c. */
  ghost predicate IsNearest(procs: Slots, c: int, t: int) {
    && 0 <= t < |procs| && procs[t].Some?
    && forall j :: 0 <= j < |procs| && Dist(c, j, |procs|) < Dist(c, t, |procs|) ==> procs[j] == None
  }

  lemma ReapedStart(procs: Slots, caller: int)
    requires 0 <= caller < |procs|
    ensures Reaped(procs, caller, 0, procs)
  {
    forall i | 0 <= i < |procs| ensures Dist(caller, i, |procs|) > 0 { Legs(caller, caller, i, |procs|); }
  }

  /** What is nearest to where the scan stands is nearest to the caller among what is left. */
  lemma NearestFromCaller(was: Slots, procs: Slots, caller: int, from: int, to: int, passed: int)
    requires 0 <= caller < |procs| && 0 <= from < |procs| && procs[caller].Some?
    requires 0 <= passed < |procs| && if passed == 0 then from == caller else Dist(caller, from, |procs|) == passed
    requires Reaped(was, caller, passed, procs) && IsNearest(procs, from, to)
    ensures IsNearest(procs, caller, to) && passed < Dist(caller, to, |procs|) <= |procs|
  {
    var n := |procs|;
    forall j | 0 <= j < n && Dist(caller, j, n) < Dist(caller, to, n) ensures procs[j] == None {
      Legs(caller, from, j, n);
      Legs(caller, from, to, n);
    }
  }

  /** The nearest process is live: it is the one to run. */
  lemma FoundLive(was: Slots, procs: Slots, caller: nat, to: int, passed: int)
    requires Reaped(was, caller, passed, procs) && IsNearest(procs, caller, to) && Live(procs[to])
    ensures IsNextLive(State(was, caller), to) && to in LiveSlots(was)
    ensures forall i :: 0 <= i < |was| ==>
              procs[i] == if Dist(caller, i, |was|) < Dist(caller, to, |was|) then None else was[i]
  {
  }

  /** It is a zombie other than the caller: reaping it takes the scan one process further. */
  lemma ReapedOne(was: Slots, procs: Slots, caller: int, to: int, passed: int)
    requires 0 <= caller < |procs| && to != caller
    requires Reaped(was, caller, passed, procs) && IsNearest(procs, caller, to) && !Live(procs[to])
    ensures Reaped(was, caller, Dist(caller, to, |procs|), procs[to := None]) && Dist(caller, to, |procs|) < |procs|
  {
    forall i | 0 <= i < |procs| && i != to ensures Dist(caller, i, |procs|) != Dist(caller, to, |procs|) {
      Legs(caller, to, i, |procs|);
    }
    Legs(caller, caller, to, |procs|);
  }

  /** It is the caller, and a zombie: nobody else is left, and nobody was live. */
  lemma OnlyCallerLeft(was: Slots, procs: Slots, caller: int, passed: int)
    requires Reaped(was, caller, passed, procs) && IsNearest(procs, caller, caller) && !Live(procs[caller])
    ensures Filled(procs) == {caller} && LiveSlots(was) == {}
  {
    forall i | 0 <= i < |procs| && i != caller ensures procs[i] == None && !Live(was[i]) {
      Legs(caller, caller, i, |procs|);
    }
  }

  // ---------------------------------------------------------------- fairness

  /** The live slots up to i, seen from the current one. */
  ghost function UpTo(s: State, i: int): set<int> {
    set j | 0 <= j < |s.procs| && Live(s.procs[j]) && Dist(s.current, j, |s.procs|) <= Dist(s.current, i, |s.procs|)
  }

  /** A process that is not picked comes one closer. */
  lemma ComesCloser(s: State, s': State, i: int)
    requires Yields(s, s') && s'.current != i && i in LiveSlots(s.procs)
    ensures |UpTo(s', i)| == |UpTo(s, i)| - 1
    ensures Dist(s'.current, i, |s'.procs|) < Dist(s.current, i, |s.procs|)
  {
    YieldKeeps(s, s');
    var n, t := |s.procs|, s'.current;
    assert IsNextLive(s, t);
    forall j | 0 <= j < n && j in LiveSlots(s.procs)
      ensures j in UpTo(s', i) <==> j in UpTo(s, i) && j != t
    {
      assert Live(s'.procs[j]) by { assert j in LiveSlots(s'.procs); }
      Legs(s.current, t, j, n);
      Legs(s.current, t, i, n);
      Legs(t, j, i, n);
    }
    assert t in UpTo(s, i) by { Legs(s.current, t, i, n); }
    assert UpTo(s', i) == UpTo(s, i) - {t} by {
      forall j | j in UpTo(s', i) ensures j in LiveSlots(s.procs) { assert j in LiveSlots(s'.procs); }
    }
    Legs(s.current, t, i, n);
  }

  datatype Event = Yield | Exit(slot: int, status: int)

  /** procm_mark_dead */
  function MarkedDead(procs: Slots, i: int, status: int): Slots
    requires 0 <= i < |procs| && procs[i].Some?
  {
    procs[i := Some(procs[i].value.(zombie := true, exitStatus := status))]
  }

  /** A process that exits is live no more, its status is kept, and nothing else changes. */
  lemma ExitKills(procs: Slots, i: int, status: int)
    requires 0 <= i < |procs| && procs[i].Some?
    ensures var procs' := MarkedDead(procs, i, status);
            |procs'| == |procs| && Filled(procs') == Filled(procs) && LiveSlots(procs') == LiveSlots(procs) - {i} &&
            procs'[i] == Some(Proc(procs[i].value.pid, true, status, procs[i].value.state)) &&
            forall j :: 0 <= j < |procs| && j != i ==> procs'[j] == procs[j]
  {
  }

  /** One event. */
  ghost predicate Step(s: State, e: Event, s': State) {
    match e
    case Yield => Yields(s, s')
    case Exit(j, status) =>
      0 <= j < |s.procs| && s.procs[j].Some? && s' == s.(procs := MarkedDead(s.procs, j, status))
  }

  /** A run without spawns. */
  ghost predicate IsRun(run: seq<State>, events: seq<Event>) {
    && |run| == |events| + 1 && (forall k :: 0 <= k < |run| ==> Wf(run[k]))
    && forall k :: 0 <= k < |events| ==> Step(run[k], events[k], run[k + 1])
  }

  /** A run in which slot i stays live and is never picked. */
  ghost predicate Starves(run: seq<State>, events: seq<Event>, i: int) {
    && IsRun(run, events)
    && (forall k :: 0 <= k < |run| ==> i in LiveSlots(run[k].procs))
    && forall k :: 0 <= k < |events| && events[k] == Yield ==> run[k + 1].current != i
  }

  function YieldCount(events: seq<Event>): nat {
    if events == [] then 0 else YieldCount(events[1..]) + if events[0] == Yield then 1 else 0
  }

  lemma ExitKeepsRank(s: State, j: int, status: int, i: int)
    requires Wf(s) && 0 <= j < |s.procs| && s.procs[j].Some?
    ensures UpTo(s.(procs := MarkedDead(s.procs, j, status)), i) <= UpTo(s, i)
    ensures Wf(s.(procs := MarkedDead(s.procs, j, status)))
  {
  }

  /** A live process that is passed over has been passed over fewer times than there are live
      processes: within that many yields it runs. */
  lemma {:induction false} NoStarvation(run: seq<State>, events: seq<Event>, i: int)
    requires Starves(run, events, i)
    ensures YieldCount(events) < |UpTo(run[0], i)| <= |LiveSlots(run[0].procs)|
    decreases |events|
  {
    hide Wf, Yields, Live;
    var s := run[0];
    assert i in UpTo(s, i);
    Subset(UpTo(s, i), LiveSlots(s.procs));
    if events == [] {
      Subset({i}, UpTo(s, i));
    } else {
      NoStarvation(run[1..], events[1..], i);
      assert Step(s, events[0], run[1]);
      match events[0]
      case Yield =>
        ComesCloser(s, run[1], i);
      case Exit(j, status) =>
        ExitKeepsRank(s, j, status, i);
        Subset(UpTo(run[1], i), UpTo(s, i));
    }
  }

  // ---------------------------------------------------------------- the dead

  lemma DeadIsNotPicked(s: State, s': State, j: int)
    requires Yields(s, s') && 0 <= j < |s.procs| && !Live(s.procs[j])
    ensures s'.current != j && !Live(s'.procs[j])
    ensures Dist(s.current, j, |s.procs|) < Dist(s.current, s'.current, |s.procs|) ==> s'.procs[j] == None
  {
    YieldKeeps(s, s');
    assert j !in LiveSlots(s.procs) && s'.current in LiveSlots(s'.procs);
  }

  /** A process that exited is never picked again. */
  lemma {:induction false} DeadForever(run: seq<State>, events: seq<Event>, k: nat, n: nat, j: int)
    requires IsRun(run, events) && k < n < |run| && events[k].Exit? && events[k].slot == j
    ensures 0 <= j < |run[n].procs| && !Live(run[n].procs[j])
    ensures events[n - 1] == Yield ==> run[n].current != j
  {
    hide Wf, Yields;
    assert Step(run[n - 1], events[n - 1], run[n]);
    if n > k + 1 {
      DeadForever(run, events, k, n - 1, j);
      match events[n - 1]
      case Yield => DeadIsNotPicked(run[n - 1], run[n], j); SameSize(run[n - 1], run[n]);
      case Exit(_, _) =>
    }
  }

  lemma SameSize(s: State, s': State)
    requires Yields(s, s')
    ensures |s'.procs| == |s.procs|
  {
  }

  /** The live slots before j, seen from the current one. */
  ghost function Before(s: State, j: int): set<int> {
    set i | 0 <= i < |s.procs| && Live(s.procs[i]) && Dist(s.current, i, |s.procs|) < Dist(s.current, j, |s.procs|)
  }

  /** A yield empties the slot of a zombie, or comes one closer to it. */
  lemma YieldReaps(s: State, s': State, j: int)
    requires Yields(s, s') && 0 <= j < |s.procs| && !Live(s.procs[j])
    ensures s'.procs[j] == None || |Before(s', j)| == |Before(s, j)| - 1
  {
    YieldKeeps(s, s');
    DeadIsNotPicked(s, s', j);
    var n, t := |s.procs|, s'.current;
    assert IsNextLive(s, t);
    Legs(s.current, t, j, n);
    if Dist(s.current, t, n) < Dist(s.current, j, n) {
      forall i | 0 <= i < n && i in LiveSlots(s.procs) ensures i in Before(s', j) <==> i in Before(s, j) && i != t {
        assert Live(s'.procs[i]) by { assert i in LiveSlots(s'.procs); }
        Legs(s.current, t, i, n);
        Legs(t, j, i, n);
      }
      assert Before(s', j) == Before(s, j) - {t} by {
        forall i | i in Before(s', j) ensures i in LiveSlots(s.procs) { assert i in LiveSlots(s'.procs); }
      }
    }
  }

  /** A run in which slot j holds a zombie all the time. */
  ghost predicate Lingers(run: seq<State>, events: seq<Event>, j: int) {
    IsRun(run, events) &&
    forall k :: 0 <= k < |run| ==> 0 <= j < |run[k].procs| && run[k].procs[j].Some? && !Live(run[k].procs[j])
  }

  /** A zombie is reaped by one of the next yields, of which there are at most one more than live
      processes: the first that passes its slot. */
  lemma {:induction false} ZombiesAreReaped(run: seq<State>, events: seq<Event>, j: int)
    requires Lingers(run, events, j)
    ensures YieldCount(events) <= |Before(run[0], j)| <= |LiveSlots(run[0].procs)|
    decreases |events|
  {
    hide Wf, Yields, Live;
    var s := run[0];
    Subset(Before(s, j), LiveSlots(s.procs));
    if events != [] {
      ZombiesAreReaped(run[1..], events[1..], j);
      assert Step(s, events[0], run[1]);
      match events[0]
      case Yield =>
        YieldReaps(s, run[1], j);
      case Exit(i, status) =>
        ExitLeavesBefore(s, i, status, j);
        Subset(Before(run[1], j), Before(s, j));
    }
  }

  lemma ExitLeavesBefore(s: State, i: int, status: int, j: int)
    requires Wf(s) && 0 <= i < |s.procs| && s.procs[i].Some?
    ensures Before(s.(procs := MarkedDead(s.procs, i, status)), j) <= Before(s, j)
  {
  }

  lemma {:induction false} Subset<T>(a: set<T>, b: set<T>)
    requires a <= b
    ensures |a| <= |b|
  {
    if a != {} {
      var x :| x in a;
      Subset(a - {x}, b - {x});
    }
  }
}

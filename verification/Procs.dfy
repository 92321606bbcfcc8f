/** kernel/proc/procm.c and drivers/schedulers/ringsched/ringsched.c: spawning, reaping and switching. */
module Procs {
  import opened Machine
  import opened ProcTable

  const ALLOC_STEP: nat := 16
  /** A kernel heap of less than 1 GiB cannot hold more pointers than this. */
  const MOST_SLOTS: nat := 0x1000_0000

  datatype Outcome = Status(st: int) | Panic

  class ProcessManager {
    var procs: Slots
    var procSize: nat
    var lastFreeIdx: nat
    var count: nat
    /** g_current_proc_idx of the ring scheduler */
    var current: nat

    ghost function Now(): State
      reads this
    {
      State(procs, current)
    }

    ghost predicate Counted()
      reads this
    {
      |procs| == procSize <= MOST_SLOTS && count == |Filled(procs)|
    }

    /** The cursor is past the table only after a growth that failed. */
    ghost predicate Valid()
      reads this
    {
      Counted() && Wf(Now()) && lastFreeIdx <= procSize + 1
    }

    /** procm_init, procm_spawn_init and procm_sched_start, when they succeed: pid 1 runs. */
    constructor ()
      ensures Valid() && Filled(procs) == {0} && LiveSlots(procs) == {0} && lastFreeIdx == procSize
    {
      procs := [Some(Proc(1, false, 0, Running))];
      procSize, lastFreeIdx, count, current := 1, 1, 1, 0;
      new;
      assert Filled(procs) == {0};
    }

    // -------------------------------------------------------------- spawning

    /** procm_available_pid. Its overflow check never fires. */
    method AvailablePid() returns (pid: int)
      requires Counted() && lastFreeIdx <= procSize + 1
      modifies this`lastFreeIdx
      ensures old(lastFreeIdx) < pid == lastFreeIdx <= MOST_SLOTS + 2
      ensures pid > procSize + 1 <==> old(lastFreeIdx) > procSize
      ensures pid <= procSize ==> procs[pid - 1] == None
      ensures pid - 1 !in Filled(procs) && forall i :: old(lastFreeIdx) <= i < pid - 1 && i < procSize ==> i in Filled(procs)
      ensures forall i :: old(lastFreeIdx) <= i < pid - 1 && i < procSize ==> procs[i].Some?
    {
      var startPoint := lastFreeIdx;
      while lastFreeIdx < procSize && procs[lastFreeIdx].Some?
        invariant startPoint <= lastFreeIdx && (startPoint <= procSize ==> lastFreeIdx <= procSize)
        invariant startPoint > procSize ==> lastFreeIdx == startPoint
        invariant forall i :: startPoint <= i < lastFreeIdx ==> procs[i].Some?
        decreases procSize - lastFreeIdx
      {
        lastFreeIdx := Wrap32(lastFreeIdx + 1);
        if lastFreeIdx == startPoint {
          assert false;
        }
      }
      pid := lastFreeIdx + 1;
      lastFreeIdx := lastFreeIdx + 1;
    }

    /** procm_add_proc_to_pool. A pid beyond the next growth step trips its assertion. */
    method AddToPool(p: Proc, granted: bool) returns (r: Outcome)
      requires Counted() && Wf(Now()) && p.pid > 0 && p.state == NeverRan && (p.pid <= procSize ==> procs[p.pid - 1] == None)
      requires granted ==> procSize + ALLOC_STEP <= MOST_SLOTS
      modifies this`procs, this`procSize, this`count
      ensures Counted() && Wf(Now())
      ensures r == if p.pid > old(procSize) + 1 then Panic
                   else if p.pid == old(procSize) + 1 && !granted then Status(-ENOMEM) else Status(0)
      ensures r != Status(0) ==> procs == old(procs)
      ensures r == Status(0) ==>
                Filled(procs) == old(Filled(procs)) + {p.pid - 1} && procs[p.pid - 1] == Some(p) &&
                |procs| == |old(procs)| + (if p.pid == old(procSize) + 1 then 16 else 0) && |procs| >= p.pid &&
                (forall i :: 0 <= i < |old(procs)| && i != p.pid - 1 ==> procs[i] == old(procs)[i]) &&
                forall i :: i in old(Filled(procs)) ==> 0 <= i < |old(procs)| && i != p.pid - 1
    {
      hide Filled;
      var pidIdx := p.pid - 1;
      if pidIdx > procSize {
        return Panic;
      }
      if pidIdx == procSize {
        if !granted {
          return Status(-ENOMEM);
        }
        FilledGrown(procs, ALLOC_STEP);
        procs := procs + seq(ALLOC_STEP, _ => None);
        procSize := procSize + ALLOC_STEP;
      }
      count := count + 1;
      FilledAdded(procs, pidIdx, p);
      FilledInside(old(procs));
      procs := procs[pidIdx := Some(p)];
      r := Status(0);
    }

    /** procm_spawn_proc, from the pid on. A new process gets a pid no other process has. Only a growth
        that failed before, with no process reaped since, makes it panic. */
    method Spawn(granted: bool) returns (r: Outcome)
      requires Valid() && (granted ==> procSize + ALLOC_STEP <= MOST_SLOTS)
      modifies this
      ensures r == Panic <==> old(lastFreeIdx) > old(procSize)
      ensures r != Panic ==> Valid() && (lastFreeIdx > procSize <==> r == Status(-ENOMEM))
      ensures r == Status(-ENOMEM) <==>
                !granted && old(lastFreeIdx) <= old(procSize) && forall i :: old(lastFreeIdx) <= i < old(procSize) ==> old(procs)[i].Some?
      ensures r != Panic && r.st < 0 ==> r.st == -ENOMEM && procs == old(procs)
      ensures r != Panic && r.st >= 0 ==>
                r.st > old(lastFreeIdx) && (forall i :: old(lastFreeIdx) <= i < r.st - 1 ==> i in old(Filled(procs))) &&
                r.st - 1 !in old(Filled(procs)) && Filled(procs) == old(Filled(procs)) + {r.st - 1} &&
                procs[r.st - 1] == Some(Proc(r.st, false, 0, NeverRan)) && lastFreeIdx == r.st &&
                |procs| == |old(procs)| + (if r.st == old(procSize) + 1 then 16 else 0) &&
                forall i :: i in old(Filled(procs)) ==> procs[i] == old(procs)[i]
      ensures current == old(current)
    {
      hide Wf, Filled;
      var pid := AvailablePid();
      if pid <= 0 {
        assert false;
      }
      r := AddToPool(Proc(pid, false, 0, NeverRan), granted);
      if r == Status(0) {
        r := Status(pid);
      }
    }

    // -------------------------------------------------------------- reaping

    /** procm_mark_dead */
    method MarkDead(i: nat, status: int)
      requires Valid() && i < |procs| && procs[i].Some?
      modifies this`procs
      ensures Valid() && procs == MarkedDead(old(procs), i, status)
      ensures LiveSlots(procs) == old(LiveSlots(procs)) - {i} && Filled(procs) == old(Filled(procs))
      ensures procs[i].value.exitStatus == status && forall j :: 0 <= j < |procs| && j != i ==> procs[j] == old(procs)[j]
    {
      ExitKills(procs, i, status);
      procs := procs[i := Some(procs[i].value.(zombie := true, exitStatus := status))];
    }

    /** procm_kill */
    method Kill(i: nat)
      requires Counted() && i < |procs| && procs[i].Some?
      modifies this`procs, this`lastFreeIdx, this`count
      ensures Counted() && procs == old(procs)[i := None] && lastFreeIdx == i
    {
      assert i in Filled(procs);
      procs := procs[i := None];
      lastFreeIdx := i;
      assert Filled(procs) == old(Filled(procs)) - {i};
      count := count - 1;
    }

    /** procm_try_kill_proc */
    method TryKillProc(target: nat, acting: nat) returns (r: Outcome)
      requires Counted() && target < |procs| && procs[target].Some?
      modifies this`procs, this`lastFreeIdx, this`count
      ensures Counted() && |procs| == |old(procs)| && lastFreeIdx == if target != acting then target else old(lastFreeIdx)
      ensures target != acting ==> r == Status(0) && procs == old(procs)[target := None]
      ensures target == acting ==> procs == old(procs) && r == if Filled(procs) == {target} then Panic else Status(-EINVAL)
    {
      if acting == target {
        assert target in Filled(procs) && |Filled(procs) - {target}| == |Filled(procs)| - 1;
        assert |Filled(procs) - {target}| == 0 ==> Filled(procs) - {target} == {};
        if count == 1 {
          return Panic;
        }
        return Status(-EINVAL);
      }
      Kill(target);
      r := Status(0);
    }

    // -------------------------------------------------------------- scheduling

    /** ringsched_next_proc: the filled slot nearest on the ring. The scan ends because one is filled. */
    method NextProc(ghost some: nat)
      requires current < |procs| == procSize && some < |procs| && procs[some].Some?
      modifies this`current
      ensures IsNearest(procs, old(current), current)
      ensures current < |procs| && procs[current].Some?
    {
      var newidx := current + 1;
      ghost var around := false;
      while true
        invariant if around then 0 <= newidx <= current else current < newidx <= procSize
        invariant !around ==> forall j :: current < j < newidx ==> procs[j] == None
        invariant around ==> forall j :: current < j < procSize || 0 <= j < newidx ==> procs[j] == None
        decreases !around, procSize - newidx
      {
        if newidx >= procSize {
          newidx := 0;
          around := true;
          continue;
        }
        if procs[newidx] == None {
          newidx := newidx + 1;
          continue;
        }
        current := newidx;
        return;
      }
    }

    /** The loop of procm_sched_yield: zombies on the way are reaped, until a live process or the caller
        is reached. */
    method ReapUntilLive(ghost was: Slots) returns (panicked: bool)
      requires Counted() && current < |procs| && procs[current].Some? && lastFreeIdx <= procSize + 1 && procs == was
      modifies this
      ensures panicked <==> LiveSlots(was) == {}
      ensures !panicked ==> Counted() && |procs| == |was| && lastFreeIdx <= procSize + 1
      ensures !panicked ==> IsNextLive(State(was, old(current)), current)
      ensures !panicked ==> forall i :: 0 <= i < |was| ==>
                procs[i] == if Dist(old(current), i, |was|) < Dist(old(current), current, |was|) then None else was[i]
    {
      hide Dist, Live, Filled, LiveSlots, Reaped, IsNearest, IsNextLive;
      var caller := current;
      ghost var passed := 0;
      ReapedStart(procs, caller);
      while true
        invariant Counted() && |procs| == |was| && current < |procs| && lastFreeIdx <= procSize + 1
        invariant 0 <= passed < |procs| && if passed == 0 then current == caller else Dist(caller, current, |procs|) == passed
        invariant Reaped(was, caller, passed, procs) && procs[caller].Some?
        decreases |was| - passed
      {
        ghost var from := current;
        NextProc(caller);
        NearestFromCaller(was, procs, caller, from, current, passed);
        if !procs[current].value.zombie {
          assert Live(procs[current]) by { IsLive(procs[current]); }
          FoundLive(was, procs, caller, current, passed);
          return false;
        }
        assert !Live(procs[current]) by { IsLive(procs[current]); }
        if current == caller {
          OnlyCallerLeft(was, procs, caller, passed);
        } else {
          ReapedOne(was, procs, caller, current, passed);
        }
        var r := TryKillProc(current, caller);
        if r == Panic {
          return true;
        }
        passed := Dist(caller, current, |procs|);
      }
    }

    /** procm_sched_yield. It always ends: with a live process running, or in the last-process panic when
        there is none. */
    method SchedYield() returns (panicked: bool)
      requires Valid()
      modifies this
      ensures panicked <==> LiveSlots(old(procs)) == {}
      ensures !panicked ==> Valid() && Yields(old(Now()), Now())
    {
      procs := procs[current := Some(procs[current].value.(state := Yielded))];
      ghost var s0, yielded := old(Now()), procs;
      assert Filled(procs) == Filled(s0.procs) && LiveSlots(procs) == LiveSlots(s0.procs);
      panicked := ReapUntilLive(procs);
      if panicked {
        return;
      }
      SameLive(s0, yielded, current);
      SwitchTo(s0, yielded);
    }

    /** proc_switch */
    method SwitchTo(ghost s0: State, ghost yielded: Slots)
      requires Counted() && lastFreeIdx <= procSize + 1 && Wf(s0) && |procs| == |s0.procs|
      requires yielded == s0.procs[s0.current := Some(s0.procs[s0.current].value.(state := Yielded))]
      requires IsNextLive(s0, current)
      requires forall i :: 0 <= i < |procs| ==>
                 procs[i] == if Dist(s0.current, i, |procs|) < Dist(s0.current, current, |procs|) then None else yielded[i]
      modifies this`procs
      ensures Valid() && Yields(s0, Now())
    {
      assert procs[current] == yielded[current];
      assert procs[current].value.state != Running;
      if procs[current].value.state == NeverRan {
        procs := procs[current := Some(procs[current].value.(state := Running))];
      }
      assert Filled(procs) == Filled(old(procs));
      forall i | 0 <= i < |procs| && i != current
        ensures Dist(s0.current, i, |procs|) != Dist(s0.current, current, |procs|)
      {
        Legs(s0.current, current, i, |procs|);
      }
      assert Switched(s0, current, Now());
      YieldKeeps(s0, Now());
    }
  }

  lemma IsLive(slot: Option<Proc>)
    ensures Live(slot) <==> slot.Some? && !slot.value.zombie
  {
  }

  lemma SameLive(s: State, yielded: Slots, t: int)
    requires Wf(s) && yielded == s.procs[s.current := Some(s.procs[s.current].value.(state := Yielded))]
    requires IsNextLive(State(yielded, s.current), t)
    ensures IsNextLive(s, t)
  {
    assert forall j :: 0 <= j < |yielded| ==> Live(yielded[j]) == Live(s.procs[j]);
  }
}

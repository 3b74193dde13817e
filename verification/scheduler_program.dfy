/** The scheduler's variables and procedures. */
module SchedulerProgram {
  import opened Scheduler

  class Threads {
    var curThread: map<HwThread, Tid>
    var state: map<Tid, ThreadState>
    var readyQ: seq<Tid>
    var deadQ: seq<Tid>
    var waitLists: map<WaitList, seq<Tid>>
    ghost var idle: set<Tid>
    var nextThreadId: Tid

    ghost function State(): Sched
      reads this
    {
      Sched(curThread, state, readyQ, deadQ, waitLists, idle, nextThreadId)
    }

    constructor (lists: set<WaitList>)
      ensures State() == Start(lists) && Inv(State())
    {
      curThread, state, readyQ, deadQ := map[], map[], [], [];
      waitLists := map l | l in lists :: [];
      idle, nextThreadId := {}, 0;
    }

    method BootInitThread(h: HwThread)
      requires Inv(State()) && h !in curThread
      modifies this
      ensures Inv(State()) && State() == BootThread(old(State()), h)
    {
      BootKeeps(State(), h);
      var th := nextThreadId;
      nextThreadId := nextThreadId + 1;
      state := state[th := Running];
      curThread := curThread[h := th];
      idle := idle + {th};
    }

    method SpawnThread() returns (th: Tid)
      requires Inv(State())
      modifies this
      ensures Inv(State()) && State() == Spawn(old(State())) && th == old(nextThreadId)
    {
      SpawnKeeps(State());
      th := nextThreadId;
      nextThreadId := nextThreadId + 1;
      state := state[th := Ready];
      readyQ := readyQ + [th];
    }

    /** Both asserts of the procedure are its preconditions here. */
    method Reschedule(h: HwThread)
      requires h in curThread && curThread[h] in state && state[curThread[h]] != Ready
      requires Requeue(State(), h).ready != []
      modifies this
      ensures State() == Scheduler.Reschedule(old(State()), h)
    {
      var oldThread := curThread[h];
      if state[oldThread] == Running {
        state := state[oldThread := Ready];
        readyQ := readyQ + [oldThread];
      }
      var nextThread := readyQ[0];
      readyQ := readyQ[1..];
      state := state[nextThread := Running];
      if oldThread != nextThread {
        curThread := curThread[h := nextThread];
      } else {
        assert curThread == curThread[h := nextThread];
      }
    }

    method Yield(h: HwThread)
      requires Inv(State()) && Enabled(State(), YieldStep(h))
      modifies this
      ensures AssertionsHold(old(State()), YieldStep(h))
      ensures Inv(State()) && State() == Apply(old(State()), YieldStep(h))
    {
      StepKeepsInv(State(), YieldStep(h));
      Reschedule(h);
    }

    method WaitOn(h: HwThread, l: WaitList)
      requires Inv(State()) && Enabled(State(), BlockStep(h, l))
      modifies this
      ensures AssertionsHold(old(State()), BlockStep(h, l))
      ensures Inv(State()) && State() == Apply(old(State()), BlockStep(h, l))
    {
      StepKeepsInv(State(), BlockStep(h, l));
      waitLists := waitLists[l := waitLists[l] + [curThread[h]]];
      state := state[curThread[h] := Waiting];
      Reschedule(h);
    }

    method ThreadExit(h: HwThread)
      requires Inv(State()) && Enabled(State(), ExitStep(h))
      modifies this
      ensures AssertionsHold(old(State()), ExitStep(h))
      ensures Inv(State()) && State() == Apply(old(State()), ExitStep(h))
      ensures old(curThread[h]) !in curThread.Values   // so the panic after it is out of reach
    {
      StepKeepsInv(State(), ExitStep(h));
      ghost var th := curThread[h];
      deadQ := deadQ + [curThread[h]];
      state := state[curThread[h] := Dead];
      Reschedule(h);
      ExitedIsDead(old(State()), h);
    }

    method WakeFirst(l: WaitList)
      requires Inv(State()) && Enabled(State(), WakeStep(l))
      modifies this
      ensures Inv(State()) && State() == Wake(old(State()), l)
    {
      StepKeepsInv(State(), WakeStep(l));
      var th := waitLists[l][0];
      waitLists := waitLists[l := waitLists[l][1..]];
      MakeThreadReady(th);
    }

    method MakeThreadReady(th: Tid)
      requires th in state && state[th] == Waiting
      modifies this`state, this`readyQ
      ensures state == old(state)[th := Ready] && readyQ == old(readyQ) + [th]
    {
      state := state[th := Ready];
      readyQ := readyQ + [th];
    }

    /** One round of the reaper: false when there is nothing to do. */
    method HarvestOne() returns (found: bool)
      requires Inv(State())
      modifies this
      ensures Inv(State()) && found == (old(deadQ) != [])
      ensures State() == if old(deadQ) != [] then Reap(old(State())) else old(State())
    {
      found := deadQ != [];
      if found {
        StepKeepsInv(State(), ReapStep);
        var th := deadQ[0];
        deadQ := deadQ[1..];
        assert state[th] == Dead && th !in curThread.Values;
        state := state - {th};
      }
    }
  }

  lemma ExitedIsDead(s: Sched, h: HwThread)
    requires Inv(s) && Enabled(s, ExitStep(h)) && AssertionsHold(s, ExitStep(h))
    ensures s.cur[h] !in Apply(s, ExitStep(h)).cur.Values
  {
    StepKeepsInv(s, ExitStep(h));
    var s' := Apply(s, ExitStep(h));
    RescheduleIsDispatch(s, ExitStep(h));
    assert s.cur[h] in s'.dead;
    assert At(s'.state, s.cur[h], Dead);
  }
}

/** The lock and the scheduler as one system: a thread that waits for the lock sleeps on one of its
    lists, one that is woken joins the ready queue, and it goes on when it is run again. */
module LockSystem {
  import opened RwLock
  import Rw = RwLockThreads
  import Sc = Scheduler

  const READERS := 0
  const WRITERS := 1

  datatype System = System(s: Sc.Sched, w: Rw.World)

  datatype Step =
    | LockRead(h: Sc.HwThread) | UnlockRead(h: Sc.HwThread) | LockWrite(h: Sc.HwThread) | UnlockWrite(h: Sc.HwThread)
    | Resume(h: Sc.HwThread) | Other(step: Sc.Step)

  predicate RunsUser(y: System, h: Sc.HwThread) {
    h in y.s.cur && y.s.cur[h] in y.w.role && y.s.cur[h] in y.s.state && y.s.cur[h] !in y.s.idle
  }

  predicate HandedTo(y: System, t: Tid) {
    t in y.w.role && (y.w.role[t] == Rw.ReadHanded || y.w.role[t] == Rw.WriteHanded)
  }

  /** The step of the lock that the current thread of a hardware thread takes. */
  function LockStep(y: System, step: Step): Rw.Step
    requires !step.Other? && step.h in y.s.cur
  {
    var t := y.s.cur[step.h];
    match step
    case LockRead(_) => Rw.LockRead(t)
    case UnlockRead(_) => Rw.UnlockRead(t)
    case LockWrite(_) => Rw.LockWrite(t)
    case UnlockWrite(_) => Rw.UnlockWrite(t)
    case Resume(_) => Rw.Resume(t)
  }

  /** Lock operations are those of current threads. One that has been handed the lock still holds
      off interrupts and does nothing but go on; one that uses the lock does not exit; and the
      lists of the lock are only used by its operations. */
  predicate Enabled(y: System, step: Step) {
    match step
    case Other(s) =>
      && Sc.Enabled(y.s, s)
      && (Sc.Reschedules(s) ==> !HandedTo(y, y.s.cur[s.h]))
      && (s.ExitStep? && y.s.cur[s.h] in y.w.role ==> y.w.role[y.s.cur[s.h]] == Rw.Idle)
      && (s.BlockStep? || s.WakeStep? ==> s.l != READERS && s.l != WRITERS)
    case _ => RunsUser(y, step.h) && Rw.Enabled(y.w, LockStep(y, step))
  }

  /** The scheduler's steps that a step of the system consists of. */
  function SchedSteps(y: System, step: Step): seq<Sc.Step> {
    match step
    case Other(s) => [s]
    case LockRead(h) => if ReaderWaits(y.w.lock) then [Sc.BlockStep(h, READERS)] else []
    case LockWrite(h) => if WriterWaits(y.w.lock) then [Sc.BlockStep(h, WRITERS)] else []
    case UnlockRead(h) => if HandsToWriter(y.w.lock) then Wakes(WRITERS, 1) else []
    case UnlockWrite(h) =>
      if y.w.lock.readers != [] then Wakes(READERS, |y.w.lock.readers|)
      else if y.w.lock.writers != [] then Wakes(WRITERS, 1) else []
    case Resume(h) => []
  }

  function Start(lists: set<Sc.WaitList>, users: set<Tid>): System {
    System(Sc.Start(lists + {READERS, WRITERS}), Rw.Start(users))
  }

  // -------------------------------------------------------------- invariant

  predicate ReadyOrRuns(s: Sc.Sched, t: Tid) {
    t in s.ready || t in s.cur.Values
  }

  /** Who waits for the lock sleeps on its lists, and who was handed it is ready or runs. */
  ghost predicate Linked(y: System) {
    && READERS in y.s.waits && WRITERS in y.s.waits
    && y.s.waits[READERS] == y.w.lock.readers && y.s.waits[WRITERS] == y.w.lock.writers
    && forall t :: HandedTo(y, t) ==> ReadyOrRuns(y.s, t)
  }

  /** Who has to do with the lock is alive and not an idle thread. */
  ghost predicate Users(y: System) {
    forall t :: t in y.w.role && y.w.role[t] != Rw.Idle ==> Alive(y.s, t)
  }

  predicate Alive(s: Sc.Sched, t: Tid) {
    t in s.state && s.state[t] != Sc.Dead && t !in s.idle
  }

  ghost predicate Inv(y: System) {
    Sc.Inv(y.s) && Rw.Inv(y.w) && Linked(y) && Users(y)
  }

  lemma OneStep(s: Sc.Sched, step: Sc.Step)
    requires Sc.Inv(s) && Sc.Enabled(s, step)
    ensures Sc.Possible(s, [step]) && Sc.After(s, [step]) == Sc.Apply(s, step) && Sc.Inv(Sc.Apply(s, step))
  {
    Sc.StepKeepsInv(s, step);
    assert [step][1..] == [];
  }

  /** The first `n` threads of the list are ready, and nothing else has changed. */
  ghost predicate Woken(s: Sc.Sched, r: Sc.Sched, l: Sc.WaitList, n: nat)
    requires l in s.waits && n <= |s.waits[l]|
  {
    && r.cur == s.cur && r.idle == s.idle && r.ready == s.ready + s.waits[l][..n] && r.waits == s.waits[l := s.waits[l][n..]]
    && forall t :: Alive(s, t) ==> Alive(r, t)
  }

  lemma WokenFirst(s: Sc.Sched, r: Sc.Sched, l: Sc.WaitList, n: nat)
    requires Sc.Inv(s) && l in s.waits && 0 < n <= |s.waits[l]|
    requires Woken(Sc.Wake(s, l), r, l, n - 1)
    ensures Woken(s, r, l, n)
  {
    var list := s.waits[l];
    assert list[0] in list;
    assert Sc.At(s.state, list[0], Sc.Waiting);
    assert s.ready + [list[0]] + list[1..][..n - 1] == s.ready + list[..n];
    assert list[1..][n - 1..] == list[n..];
  }

  lemma WakeOne(s: Sc.Sched, l: Sc.WaitList)
    requires Sc.Inv(s) && l in s.waits && s.waits[l] != []
    ensures Sc.AssertionsHold(s, Sc.WakeStep(l)) && Sc.Inv(Sc.Wake(s, l))
    ensures l in Sc.Wake(s, l).waits && Sc.Wake(s, l).waits[l] == s.waits[l][1..]
  {
    Sc.StepKeepsInv(s, Sc.WakeStep(l));
  }

  function Wakes(l: Sc.WaitList, n: nat): seq<Sc.Step> {
    if n == 0 then [] else [Sc.WakeStep(l)] + Wakes(l, n - 1)
  }

  lemma FirstStep(s: Sc.Sched, step: Sc.Step, rest: seq<Sc.Step>)
    requires Sc.Enabled(s, step) && Sc.AssertionsHold(s, step) && Sc.Possible(Sc.Apply(s, step), rest)
    ensures Sc.Possible(s, [step] + rest) && Sc.After(s, [step] + rest) == Sc.After(Sc.Apply(s, step), rest)
  {
    assert ([step] + rest)[0] == step && ([step] + rest)[1..] == rest;
  }

  lemma WakeNone(s: Sc.Sched, l: Sc.WaitList)
    requires l in s.waits
    ensures Woken(s, s, l, 0)
  {
  }

  /** Waking threads of a list appends them to the ready queue in their order. */
  lemma {:induction false} WakeAll(s: Sc.Sched, l: Sc.WaitList, n: nat)
    requires Sc.Inv(s) && l in s.waits && n <= |s.waits[l]|
    ensures Sc.Possible(s, Wakes(l, n)) && Woken(s, Sc.After(s, Wakes(l, n)), l, n)
    decreases n
  {
    if n == 0 {
      WakeNone(s, l);
    } else {
      WakeOne(s, l);
      var s1 := Sc.Wake(s, l);
      WakeAll(s1, l, n - 1);
      FirstStep(s, Sc.WakeStep(l), Wakes(l, n - 1));
      WokenFirst(s, Sc.After(s1, Wakes(l, n - 1)), l, n);
    }
  }

  // ------------------------------------------------------------------- steps

  function Apply(y: System, step: Step): System
    requires Enabled(y, step) && Sc.Possible(y.s, SchedSteps(y, step))
  {
    System(Sc.After(y.s, SchedSteps(y, step)), if step.Other? then y.w else Rw.Apply(y.w, LockStep(y, step)))
  }

  /** The step gives up its hardware thread. */
  predicate Reschedules(y: System, step: Step) {
    match step
    case Other(s) => Sc.Reschedules(s)
    case LockRead(_) => ReaderWaits(y.w.lock)
    case LockWrite(_) => WriterWaits(y.w.lock)
    case _ => false
  }

  function HwOf(step: Step): Sc.HwThread
    requires !step.Other? || Sc.Reschedules(step.step)
  {
    if step.Other? then step.step.h else step.h
  }

  /** What a step of the scheduler does to threads that are alive, ready or running. */
  ghost predicate KeepsOthers(s: Sc.Sched, r: Sc.Sched, t: Tid) {
    (ReadyOrRuns(s, t) ==> ReadyOrRuns(r, t)) && (Alive(s, t) ==> Alive(r, t))
  }

  lemma DispatchKeepsPlace(s: Sc.Sched, h: Sc.HwThread, t: Tid)
    requires s.ready != [] && h !in s.cur && ReadyOrRuns(s, t)
    ensures ReadyOrRuns(Sc.Dispatch(s, h), t)
  {
    var r := Sc.Dispatch(s, h);
    if t in s.ready {
      var k :| 0 <= k < |s.ready| && s.ready[k] == t;
      if k > 0 {
        assert r.ready[k - 1] == t;
      } else {
        assert r.cur[h] == t;
      }
    } else {
      var k :| k in s.cur && s.cur[k] == t;
      assert r.cur[k] == t;
    }
  }

  lemma SetAsideKeepsPlace(s: Sc.Sched, step: Sc.Step, t: Tid)
    requires Sc.Inv(s) && Sc.Enabled(s, step) && Sc.Reschedules(step) && t != s.cur[step.h] && ReadyOrRuns(s, t)
    ensures ReadyOrRuns(Sc.SetAside(s, step), t)
  {
    if t in s.cur.Values {
      var k :| k in s.cur && s.cur[k] == t;
      assert Sc.SetAside(s, step).cur[k] == t;
    }
  }

  lemma DispatchKeepsAlive(s: Sc.Sched, h: Sc.HwThread, t: Tid)
    requires s.ready != [] && Alive(s, t)
    ensures Alive(Sc.Dispatch(s, h), t)
  {
  }

  lemma DispatchKeeps(s: Sc.Sched, step: Sc.Step, t: Tid)
    requires Sc.Inv(s) && Sc.Enabled(s, step) && Sc.Reschedules(step) && t != s.cur[step.h]
    ensures Sc.AssertionsHold(s, step) && KeepsOthers(s, Sc.Apply(s, step), t)
  {
    Sc.RescheduleIsDispatch(s, step);
    var a := Sc.SetAside(s, step);
    if ReadyOrRuns(s, t) {
      SetAsideKeepsPlace(s, step, t);
      DispatchKeepsPlace(a, step.h, t);
    }
    if Alive(s, t) {
      assert Alive(a, t);
      DispatchKeepsAlive(a, step.h, t);
    }
  }

  lemma BootKeepsThread(s: Sc.Sched, h: Sc.HwThread, t: Tid)
    requires Sc.Inv(s) && h !in s.cur
    ensures KeepsOthers(s, Sc.BootThread(s, h), t)
  {
    if t in s.cur.Values {
      var k :| k in s.cur && s.cur[k] == t;
      assert Sc.BootThread(s, h).cur[k] == t;
    }
  }

  lemma WakeKeepsThread(s: Sc.Sched, l: Sc.WaitList, t: Tid)
    requires Sc.Inv(s) && l in s.waits && s.waits[l] != []
    ensures KeepsOthers(s, Sc.Wake(s, l), t)
  {
  }

  lemma ReapKeepsThread(s: Sc.Sched, t: Tid)
    requires Sc.Inv(s) && s.dead != []
    ensures KeepsOthers(s, Sc.Reap(s), t)
  {
    assert s.dead[0] in s.dead;
    assert Sc.At(s.state, s.dead[0], Sc.Dead);
  }

  lemma SchedKeeps(s: Sc.Sched, step: Sc.Step, t: Tid)
    requires Sc.Inv(s) && Sc.Enabled(s, step) && (Sc.Reschedules(step) ==> t != s.cur[step.h])
    ensures Sc.AssertionsHold(s, step) && KeepsOthers(s, Sc.Apply(s, step), t)
  {
    Sc.AssertionsAlwaysHold(s, step);
    match step
    case BootStep(h) => BootKeepsThread(s, h, t);
    case SpawnStep =>
    case WakeStep(l) => WakeKeepsThread(s, l, t);
    case ReapStep => ReapKeepsThread(s, t);
    case _ => DispatchKeeps(s, step, t);
  }

  /** A thread that gives up its hardware thread otherwise than by exiting stays alive. */
  lemma SleeperAlive(s: Sc.Sched, step: Sc.Step)
    requires Sc.Inv(s) && Sc.Enabled(s, step) && (step.YieldStep? || step.BlockStep?)
    requires Alive(s, s.cur[step.h])
    ensures Sc.AssertionsHold(s, step) && Alive(Sc.Apply(s, step), s.cur[step.h])
  {
    Sc.RescheduleIsDispatch(s, step);
  }

  lemma OtherKeeps(y: System, s: Sc.Step)
    requires Inv(y) && Enabled(y, Other(s))
    ensures Sc.Possible(y.s, [s]) && Inv(Apply(y, Other(s)))
  {
    OneStep(y.s, s);
    var r := Sc.Apply(y.s, s);
    forall t | HandedTo(y, t) ensures ReadyOrRuns(r, t) {
      SchedKeeps(y.s, s, t);
    }
    forall t | t in y.w.role && y.w.role[t] != Rw.Idle ensures Alive(r, t) {
      if Sc.Reschedules(s) && t == y.s.cur[s.h] {
        SleeperAlive(y.s, s);
      } else {
        SchedKeeps(y.s, s, t);
      }
    }
    OtherLists(y.s, s);
  }

  lemma OtherLists(s: Sc.Sched, step: Sc.Step)
    requires Sc.Inv(s) && Sc.Enabled(s, step) && READERS in s.waits && WRITERS in s.waits
    requires step.BlockStep? || step.WakeStep? ==> step.l != READERS && step.l != WRITERS
    ensures Sc.AssertionsHold(s, step)
    ensures var r := Sc.Apply(s, step);
            && READERS in r.waits && WRITERS in r.waits
            && r.waits[READERS] == s.waits[READERS] && r.waits[WRITERS] == s.waits[WRITERS]
  {
    Sc.AssertionsAlwaysHold(s, step);
  }

  // ------------------------------------------------------ locking, unlocking

  lemma BlockList(s: Sc.Sched, h: Sc.HwThread, l: Sc.WaitList)
    requires Sc.Inv(s) && Sc.Enabled(s, Sc.BlockStep(h, l))
    ensures Sc.AssertionsHold(s, Sc.BlockStep(h, l))
    ensures Sc.Apply(s, Sc.BlockStep(h, l)).waits == s.waits[l := s.waits[l] + [s.cur[h]]]
  {
    Sc.RescheduleIsDispatch(s, Sc.BlockStep(h, l));
  }

  /** A thread that does not sleep has only changed its role. */
  lemma StaysKeeps(y: System, w: Rw.World, t: Tid)
    requires Inv(y) && Rw.Inv(w) && t in y.w.role && Alive(y.s, t)
    requires t in w.role && w.role == y.w.role[t := w.role[t]] && w.role[t] != Rw.ReadHanded && w.role[t] != Rw.WriteHanded
    requires w.lock.readers == y.w.lock.readers && w.lock.writers == y.w.lock.writers
    ensures Inv(System(y.s, w))
  {
    var z := System(y.s, w);
    forall u | HandedTo(z, u) ensures ReadyOrRuns(y.s, u) {
      assert HandedTo(y, u);
    }
  }

  /** One that does sleep is on the list of the lock. */
  ghost predicate Sleeps(y: System, w: Rw.World, h: Sc.HwThread, l: Sc.WaitList) {
    && Inv(y) && Rw.Inv(w) && RunsUser(y, h) && (l == READERS || l == WRITERS)
    && var t := y.s.cur[h];
       && y.w.role[t] == Rw.Idle && t in w.role && w.role == y.w.role[t := w.role[t]]
       && w.role[t] != Rw.ReadHanded && w.role[t] != Rw.WriteHanded
       && w.lock.readers == y.w.lock.readers + (if l == READERS then [t] else [])
       && w.lock.writers == y.w.lock.writers + (if l == WRITERS then [t] else [])
  }

  lemma SleepsUsers(y: System, w: Rw.World, h: Sc.HwThread, l: Sc.WaitList)
    requires Sleeps(y, w, h, l)
    ensures Sc.AssertionsHold(y.s, Sc.BlockStep(h, l)) && Users(System(Sc.Apply(y.s, Sc.BlockStep(h, l)), w))
  {
    var t, step := y.s.cur[h], Sc.BlockStep(h, l);
    CurrentAlive(y.s, h);
    SleeperAlive(y.s, step);
    forall u | u in w.role && w.role[u] != Rw.Idle ensures Alive(Sc.Apply(y.s, step), u) {
      if u != t {
        SchedKeeps(y.s, step, u);
      }
    }
  }

  lemma SleepsKeeps(y: System, w: Rw.World, h: Sc.HwThread, l: Sc.WaitList)
    requires Sleeps(y, w, h, l)
    ensures Sc.Possible(y.s, [Sc.BlockStep(h, l)])
    ensures Inv(System(Sc.After(y.s, [Sc.BlockStep(h, l)]), w))
  {
    var t, step := y.s.cur[h], Sc.BlockStep(h, l);
    OneStep(y.s, step);
    BlockList(y.s, h, l);
    SleepsUsers(y, w, h, l);
    var z := System(Sc.Apply(y.s, step), w);
    forall u | HandedTo(z, u) ensures ReadyOrRuns(z.s, u) {
      assert HandedTo(y, u);
      SchedKeeps(y.s, step, u);
    }
    assert y.w.lock.readers + [] == y.w.lock.readers && y.w.lock.writers + [] == y.w.lock.writers;
  }

  lemma CurrentAlive(s: Sc.Sched, h: Sc.HwThread)
    requires Sc.Inv(s) && h in s.cur && s.cur[h] !in s.idle
    ensures Alive(s, s.cur[h])
  {
    assert Sc.At(s.state, s.cur[h], Sc.Running);
  }

  /** The lock has been handed to those at the head of a list. */
  ghost predicate Hands(y: System, w: Rw.World, t: Tid, l: Sc.WaitList, n: nat) {
    && Inv(y) && Rw.Inv(w) && t in y.w.role && (l == READERS || l == WRITERS) && n <= |y.s.waits[l]|
    && w.role == Rw.Handed(y.w.role[t := Rw.Idle], y.s.waits[l][..n])
    && w.lock.readers == (if l == READERS then y.w.lock.readers[n..] else y.w.lock.readers)
    && w.lock.writers == (if l == WRITERS then y.w.lock.writers[n..] else y.w.lock.writers)
  }

  lemma HandsLinked(y: System, w: Rw.World, t: Tid, l: Sc.WaitList, n: nat, r: Sc.Sched)
    requires Hands(y, w, t, l, n) && Woken(y.s, r, l, n)
    ensures Linked(System(r, w))
  {
    var z := System(r, w);
    forall u | HandedTo(z, u) ensures ReadyOrRuns(r, u) {
      if u in y.s.waits[l][..n] {
        assert u in r.ready;
      } else {
        assert HandedTo(y, u);
      }
    }
  }

  lemma HandsUsers(y: System, w: Rw.World, t: Tid, l: Sc.WaitList, n: nat, r: Sc.Sched)
    requires Hands(y, w, t, l, n) && Woken(y.s, r, l, n)
    ensures Users(System(r, w))
  {
    forall u | u in w.role && w.role[u] != Rw.Idle ensures Alive(r, u) {
      if u in y.s.waits[l][..n] {
        assert u in y.s.waits[l];
        assert u in y.w.lock.readers || u in y.w.lock.writers;
      }
      assert Alive(y.s, u);
    }
  }

  /** A thread leaves the lock and hands it to those at the head of a list. */
  lemma HandsKeeps(y: System, w: Rw.World, t: Tid, l: Sc.WaitList, n: nat)
    requires Hands(y, w, t, l, n)
    ensures Sc.Possible(y.s, Wakes(l, n))
    ensures var r := Sc.After(y.s, Wakes(l, n)); Inv(System(r, w)) && Woken(y.s, r, l, n)
  {
    WakeAll(y.s, l, n);
    Sc.RunKeepsInv(y.s, Wakes(l, n));
    HandsLinked(y, w, t, l, n, Sc.After(y.s, Wakes(l, n)));
    HandsUsers(y, w, t, l, n, Sc.After(y.s, Wakes(l, n)));
  }

  lemma LockKeeps(y: System, step: Step)
    requires Inv(y) && Enabled(y, step) && (step.LockRead? || step.LockWrite? || step.Resume?)
    ensures Sc.Possible(y.s, SchedSteps(y, step)) && Inv(Apply(y, step))
  {
    var t, w := y.s.cur[step.h], Rw.Apply(y.w, LockStep(y, step));
    Rw.StepKeepsInv(y.w, LockStep(y, step));
    CurrentAlive(y.s, step.h);
    if Reschedules(y, step) {
      SleepsKeeps(y, w, step.h, if step.LockRead? then READERS else WRITERS);
    } else {
      StaysKeeps(y, w, t);
    }
  }

  /** The list that is woken by an unlock, and how much of it. */
  function WokenList(l: Lock, step: Step): (Sc.WaitList, nat) {
    if step.UnlockWrite? && l.readers != [] then (READERS, |l.readers|)
    else (WRITERS, if (if step.UnlockWrite? then l.writers != [] else HandsToWriter(l)) then 1 else 0)
  }

  lemma UnlockHands(y: System, step: Step)
    requires Inv(y) && Enabled(y, step) && (step.UnlockRead? || step.UnlockWrite?)
    ensures var (l, n) := WokenList(y.w.lock, step);
            && Hands(y, Rw.Apply(y.w, LockStep(y, step)), y.s.cur[step.h], l, n) && SchedSteps(y, step) == Wakes(l, n)
            && y.s.waits[l][..n] == if step.UnlockRead? then WokenByReader(y.w.lock) else WokenByWriter(y.w.lock)
  {
    Rw.StepKeepsInv(y.w, LockStep(y, step));
    if step.UnlockRead? {
      UnlockReadHands(y, step.h);
    } else {
      UnlockWriteHands(y, step.h);
    }
  }

  lemma UnlockReadHands(y: System, h: Sc.HwThread)
    requires Inv(y) && Enabled(y, UnlockRead(h)) && Rw.Inv(Rw.Apply(y.w, Rw.UnlockRead(y.s.cur[h])))
    ensures var n := if HandsToWriter(y.w.lock) then 1 else 0;
            && Hands(y, Rw.Apply(y.w, Rw.UnlockRead(y.s.cur[h])), y.s.cur[h], WRITERS, n)
            && y.s.waits[WRITERS][..n] == WokenByReader(y.w.lock)
  {
  }

  lemma UnlockWriteHands(y: System, h: Sc.HwThread)
    requires Inv(y) && Enabled(y, UnlockWrite(h)) && Rw.Inv(Rw.Apply(y.w, Rw.UnlockWrite(y.s.cur[h])))
    ensures var (l, n) := WokenList(y.w.lock, UnlockWrite(h));
            && Hands(y, Rw.Apply(y.w, Rw.UnlockWrite(y.s.cur[h])), y.s.cur[h], l, n)
            && y.s.waits[l][..n] == WokenByWriter(y.w.lock)
  {
  }

  lemma UnlockKeeps(y: System, step: Step)
    requires Inv(y) && Enabled(y, step) && (step.UnlockRead? || step.UnlockWrite?)
    ensures var (l, n) := WokenList(y.w.lock, step);
            && SchedSteps(y, step) == Wakes(l, n) && Sc.Possible(y.s, Wakes(l, n)) && Inv(Apply(y, step))
            && l in y.s.waits && n <= |y.s.waits[l]| && Woken(y.s, Apply(y, step).s, l, n)
  {
    var (l, n) := WokenList(y.w.lock, step);
    UnlockHands(y, step);
    HandsKeeps(y, Rw.Apply(y.w, LockStep(y, step)), y.s.cur[step.h], l, n);
  }

  /** Every step of the system meets the assertions of lock and scheduler and keeps them linked. */
  lemma StepKeepsInv(y: System, step: Step)
    requires Inv(y) && Enabled(y, step)
    ensures Sc.Possible(y.s, SchedSteps(y, step)) && Inv(Apply(y, step))
    ensures !step.Other? ==> Rw.AssertionsHold(y.w, LockStep(y, step))
  {
    match step
    case Other(s) => OtherKeeps(y, s);
    case UnlockRead(_) => UnlockKeeps(y, step); Rw.SafeAssertions(y.w, LockStep(y, step));
    case UnlockWrite(_) => UnlockKeeps(y, step); Rw.SafeAssertions(y.w, LockStep(y, step));
    case _ => LockKeeps(y, step); Rw.SafeAssertions(y.w, LockStep(y, step));
  }

  // -------------------------------------------------------------------- runs

  predicate Possible(y: System, steps: seq<Step>)
    decreases |steps|
  {
    steps == [] ||
    (Enabled(y, steps[0]) && Sc.Possible(y.s, SchedSteps(y, steps[0])) && Possible(Apply(y, steps[0]), steps[1..]))
  }

  function After(y: System, steps: seq<Step>): System
    requires Possible(y, steps)
    decreases |steps|
  {
    if steps == [] then y else After(Apply(y, steps[0]), steps[1..])
  }

  lemma {:induction false} RunKeepsInv(y: System, steps: seq<Step>)
    requires Inv(y) && Possible(y, steps)
    ensures Inv(After(y, steps))
    decreases |steps|
  {
    if steps != [] {
      StepKeepsInv(y, steps[0]);
      RunKeepsInv(Apply(y, steps[0]), steps[1..]);
    }
  }

  lemma StartInv(lists: set<Sc.WaitList>, users: set<Tid>)
    ensures Inv(Start(lists, users))
  {
    Rw.StartInv(users);
  }

  /** In every run, whoever waits for the lock sleeps on its list, whoever was handed it is ready
      or runs, and whatever step comes next meets the assertions of lock and scheduler. */
  lemma AlwaysLinked(lists: set<Sc.WaitList>, users: set<Tid>, steps: seq<Step>, next: Step)
    requires Possible(Start(lists, users), steps)
    ensures var y := After(Start(lists, users), steps);
            && Sc.Placed(y.s) && Linked(y)
            && (Enabled(y, next) ==>
                  Sc.Possible(y.s, SchedSteps(y, next)) && (!next.Other? ==> Rw.AssertionsHold(y.w, LockStep(y, next))))
  {
    StartInv(lists, users);
    RunKeepsInv(Start(lists, users), steps);
    var y := After(Start(lists, users), steps);
    if Enabled(y, next) {
      StepKeepsInv(y, next);
    }
  }

  // ------------------------------------------------ from hand-off to running

  ghost function CountReschedules(y: System, steps: seq<Step>): nat
    requires Possible(y, steps)
    decreases |steps|
  {
    if steps == [] then 0 else (if Reschedules(y, steps[0]) then 1 else 0) + CountReschedules(Apply(y, steps[0]), steps[1..])
  }

  /** The thread at position `k` moves up when a hardware thread reschedules, and runs when it is
      at the head. */
  ghost predicate MovesUp(s: Sc.Sched, r: Sc.Sched, k: nat, reschedules: bool, h: Sc.HwThread) {
    && k < |s.ready|
    && (if !reschedules then k < |r.ready| && r.ready[k] == s.ready[k]
        else if k > 0 then k - 1 < |r.ready| && r.ready[k - 1] == s.ready[k]
        else h in r.cur && r.cur[h] == s.ready[0])
  }

  lemma QueueMoves(y: System, step: Step, k: nat)
    requires Inv(y) && Enabled(y, step) && k < |y.s.ready|
    ensures Sc.Possible(y.s, SchedSteps(y, step))
    ensures MovesUp(y.s, Apply(y, step).s, k, Reschedules(y, step), if Reschedules(y, step) then HwOf(step) else 0)
  {
    StepKeepsInv(y, step);
    if step.UnlockRead? || step.UnlockWrite? {
      UnlockKeeps(y, step);
    } else if SchedSteps(y, step) != [] {
      var s := SchedSteps(y, step)[0];
      OneStep(y.s, s);
      Sc.QueueMoves(y.s, s, k);
    }
  }

  /** A thread that was handed the lock keeps it while it is in the ready queue. */
  lemma StaysHanded(y: System, step: Step, t: Tid)
    requires Inv(y) && Enabled(y, step) && HandedTo(y, t) && t in y.s.ready
    ensures Sc.Possible(y.s, SchedSteps(y, step)) && HandedTo(Apply(y, step), t)
  {
    StepKeepsInv(y, step);
    assert Sc.At(y.s.state, t, Sc.Ready);
    if !step.Other? {
      assert Sc.At(y.s.state, y.s.cur[step.h], Sc.Running);
      NotWoken(y, t);
    }
  }

  lemma NotWoken(y: System, t: Tid)
    requires Inv(y) && HandedTo(y, t)
    ensures t !in WokenByReader(y.w.lock) && t !in WokenByWriter(y.w.lock)
  {
    assert t !in y.w.lock.readers && t !in y.w.lock.writers;
  }

  /** A thread that was handed the lock and is at position `k` of the ready queue is run by the
      `k + 1`st reschedule, and then goes on: its hardware thread can do nothing else. */
  lemma {:induction false} HandedRuns(y: System, steps: seq<Step>, k: nat, last: Step)
    requires Inv(y) && Possible(y, steps) && k < |y.s.ready| && HandedTo(y, y.s.ready[k])
    requires CountReschedules(y, steps) == k
    requires Enabled(After(y, steps), last) && Reschedules(After(y, steps), last)
    ensures var z := After(y, steps);
            && Sc.Possible(z.s, SchedSteps(z, last))
            && RunsNext(Apply(z, last), HwOf(last), y.s.ready[k])
    decreases |steps|
  {
    var t := y.s.ready[k];
    if steps == [] {
      QueueMoves(y, last, 0);
      StaysHanded(y, last, t);
      StepKeepsInv(y, last);
      OnlyResumes(Apply(y, last), HwOf(last), t);
    } else {
      StepKeepsInv(y, steps[0]);
      QueueMoves(y, steps[0], k);
      StaysHanded(y, steps[0], t);
      HandedRuns(Apply(y, steps[0]), steps[1..], if Reschedules(y, steps[0]) then k - 1 else k, last);
    }
  }

  /** The hardware thread runs `t`, which goes on with the lock at its next step. */
  ghost predicate RunsNext(z: System, h: Sc.HwThread, t: Tid) {
    && h in z.s.cur && z.s.cur[h] == t && HandedTo(z, t) && Enabled(z, Resume(h))
    && forall step :: Enabled(z, step) && OnHardware(step, h) ==> step == Resume(h)
  }

  predicate OnHardware(step: Step, h: Sc.HwThread) {
    match step
    case Other(s) => Sc.Reschedules(s) && s.h == h
    case _ => step.h == h
  }

  lemma OnlyResumes(z: System, h: Sc.HwThread, t: Tid)
    requires Inv(z) && h in z.s.cur && z.s.cur[h] == t && HandedTo(z, t)
    ensures RunsNext(z, h, t)
  {
    assert Alive(z.s, t);
  }

  function WokenBy(l: Lock, step: Step): seq<Tid> {
    if step.UnlockRead? then WokenByReader(l) else WokenByWriter(l)
  }

  lemma WokenAreHanded(y: System, step: Step, t: Tid)
    requires Inv(y) && Enabled(y, step) && (step.UnlockRead? || step.UnlockWrite?) && t in WokenBy(y.w.lock, step)
    ensures Sc.Possible(y.s, SchedSteps(y, step)) && HandedTo(Apply(y, step), t)
  {
    StepKeepsInv(y, step);
    assert t in y.w.lock.readers || t in y.w.lock.writers;
  }

  lemma WokenStand(y: System, step: Step, j: nat)
    requires Inv(y) && Enabled(y, step) && (step.UnlockRead? || step.UnlockWrite?) && j < |WokenBy(y.w.lock, step)|
    ensures Sc.Possible(y.s, SchedSteps(y, step))
    ensures var ready := Apply(y, step).s.ready;
            |y.s.ready| + j < |ready| && ready[|y.s.ready| + j] == WokenBy(y.w.lock, step)[j]
  {
    var p := WokenList(y.w.lock, step);
    UnlockWakes(y, step, p.0, p.1);
    WokenAt(y.s, Apply(y, step).s, p.0, p.1, j);
  }

  lemma UnlockWakes(y: System, step: Step, l: Sc.WaitList, n: nat)
    requires Inv(y) && Enabled(y, step) && (step.UnlockRead? || step.UnlockWrite?) && WokenList(y.w.lock, step) == (l, n)
    ensures Sc.Possible(y.s, SchedSteps(y, step)) && l in y.s.waits && n <= |y.s.waits[l]|
    ensures Woken(y.s, Apply(y, step).s, l, n) && y.s.waits[l][..n] == WokenBy(y.w.lock, step)
  {
    UnlockKeeps(y, step);
    UnlockHands(y, step);
  }

  lemma WokenAt(s: Sc.Sched, r: Sc.Sched, l: Sc.WaitList, n: nat, j: nat)
    requires l in s.waits && j < n <= |s.waits[l]| && Woken(s, r, l, n)
    ensures |s.ready| + j < |r.ready| && r.ready[|s.ready| + j] == s.waits[l][..n][j]
  {
  }

  /** Whom an unlock hands the lock stands behind those that were ready, in the order of the list,
      and so no reschedule more than there are threads is needed until it runs. */
  lemma HandOffBound(y: System, step: Step, j: nat)
    requires Inv(y) && Enabled(y, step) && (step.UnlockRead? || step.UnlockWrite?) && j < |WokenBy(y.w.lock, step)|
    ensures Sc.Possible(y.s, SchedSteps(y, step))
    ensures var z, t, k := Apply(y, step), WokenBy(y.w.lock, step)[j], |y.s.ready| + j;
            k < |z.s.ready| <= |z.s.state| && z.s.ready[k] == t && HandedTo(z, t)
  {
    WokenStand(y, step, j);
    WokenAreHanded(y, step, WokenBy(y.w.lock, step)[j]);
    StepKeepsInv(y, step);
    ReadyFew(Apply(y, step).s);
  }

  lemma ReadyFew(s: Sc.Sched)
    requires Sc.Inv(s)
    ensures |s.ready| <= |s.state|
  {
    Rw.DistinctCount(s.ready);
    forall t | t in Rw.Elements(s.ready) ensures t in s.state.Keys {
      assert Sc.At(s.state, t, Sc.Ready);
    }
    Subset(Rw.Elements(s.ready), s.state.Keys);
    assert |s.state| == |s.state.Keys|;
  }

  lemma Subset(a: set<Tid>, b: set<Tid>)
    requires a <= b
    ensures |a| <= |b|
  {
    assert b == a + (b - a);
  }
}

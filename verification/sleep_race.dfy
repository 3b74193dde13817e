/** What can come between a thread's joining a wait list and its giving up the hardware thread. */
module SleepRace {
  import opened Scheduler

  /** The system without the hardware thread `h`, whose thread has joined list `l` and is about to
      reschedule; the spinlock is free, so the others go on. */
  function Falling(s: Sched, h: HwThread, l: WaitList): Sched
    requires Enabled(s, BlockStep(h, l))
  {
    SetAside(s, BlockStep(h, l))
  }

  /** The whole system: `h` still runs `t`. */
  function With(d: Sched, h: HwThread, t: Tid): Sched {
    d.(cur := d.cur[h := t])
  }

  lemma FallingIsBlock(s: Sched, h: HwThread, l: WaitList)
    requires Inv(s) && Enabled(s, BlockStep(h, l))
    ensures With(Falling(s, h, l), h, s.cur[h]) == Block(s, h, l)
  {
    assert With(Falling(s, h, l), h, s.cur[h]).cur == s.cur;
  }

  lemma FallingKeeps(s: Sched, h: HwThread, l: WaitList)
    requires Inv(s) && Enabled(s, BlockStep(h, l))
    ensures var d := Falling(s, h, l);
            Inv(d) && h !in d.cur && |d.idle| > |d.cur| && l in d.waits && s.cur[h] in d.waits[l]
  {
    SetAsidePlaced(s, BlockStep(h, l));
    SetAsideIdling(s, BlockStep(h, l));
    assert Falling(s, h, l).waits[l][|s.waits[l]|] == s.cur[h];
  }

  /** Steps of the others. */
  predicate ByOthers(step: Step, h: HwThread) {
    Reschedules(step) || step.BootStep? ==> step.h != h
  }

  predicate WakesThread(s: Sched, step: Step, t: Tid)
    requires Enabled(s, step)
  {
    step.WakeStep? && s.waits[step.l][0] == t
  }

  /** Steps of the others, none of which wakes the thread. */
  predicate SleepsOn(d: Sched, steps: seq<Step>, h: HwThread, t: Tid)
    requires Possible(d, steps)
    decreases |steps|
  {
    steps == [] ||
    (ByOthers(steps[0], h) && !WakesThread(d, steps[0], t) && SleepsOn(Apply(d, steps[0]), steps[1..], h, t))
  }

  lemma CurSwap(cur: map<HwThread, Tid>, h: HwThread, t: Tid, k: HwThread, u: Tid)
    requires k != h
    ensures cur[h := t][k := u] == cur[k := u][h := t]
  {
  }

  lemma RescheduleTheSame(b: Sched, h: HwThread, t: Tid, k: HwThread)
    requires k in b.cur && b.cur[k] in b.state && k != h && Requeue(b, k).ready != []
    ensures Requeue(With(b, h, t), k) == With(Requeue(b, k), h, t)
    ensures Reschedule(With(b, h, t), k) == With(Reschedule(b, k), h, t)
  {
    var q := Requeue(b, k);
    CurSwap(q.cur, h, t, k, q.ready[0]);
  }

  lemma BeforeTheSame(d: Sched, h: HwThread, t: Tid, step: Step)
    requires Enabled(d, step) && Reschedules(step) && step.h != h
    ensures Enabled(With(d, h, t), step) && Before(With(d, h, t), step) == With(Before(d, step), h, t)
  {
  }

  /** What the others do is the same whether or not `h` is looked at. */
  lemma OthersDoTheSame(d: Sched, h: HwThread, t: Tid, step: Step)
    requires Inv(d) && h !in d.cur && ByOthers(step, h) && At(d.state, t, Waiting)
    requires Enabled(With(d, h, t), step)
    ensures Enabled(d, step) && AssertionsHold(d, step) && AssertionsHold(With(d, h, t), step)
    ensures Apply(With(d, h, t), step) == With(Apply(d, step), h, t)
  {
    AssertionsAlwaysHold(d, step);
    match step
    case BootStep(k) => CurSwap(d.cur, h, t, k, d.nextId);
    case SpawnStep =>
    case WakeStep(_) =>
    case ReapStep => assert d.dead[0] in d.dead;
                     assert At(d.state, d.dead[0], Dead);
                     assert With(d, h, t).cur.Values <= d.cur.Values + {t};
    case _ =>
      BeforeTheSame(d, h, t, step);
      RescheduleTheSame(Before(d, step), h, t, step.h);
  }

  /** A thread that is not woken stays where it is. */
  lemma StaysAsleep(d: Sched, step: Step, l: WaitList, t: Tid)
    requires Inv(d) && Enabled(d, step) && l in d.waits && t in d.waits[l] && !WakesThread(d, step, t)
    ensures AssertionsHold(d, step) && Inv(Apply(d, step))
    ensures l in Apply(d, step).waits && t in Apply(d, step).waits[l] && Apply(d, step).idle >= d.idle
  {
    StepKeepsInv(d, step);
    if step.WakeStep? && step.l == l {
      var k :| 0 <= k < |d.waits[l]| && d.waits[l][k] == t;
      assert Apply(d, step).waits[l][k - 1] == t;
    } else if Reschedules(step) {
      RescheduleIsDispatch(d, step);
    }
  }

  lemma OnListWaits(d: Sched, l: WaitList, t: Tid)
    requires Inv(d) && l in d.waits && t in d.waits[l]
    ensures At(d.state, t, Waiting) && t !in d.ready && t !in d.cur.Values
  {
    assert !At(d.state, t, Ready);
    if t in d.cur.Values {
      var k :| k in d.cur && d.cur[k] == t;
      assert At(d.state, d.cur[k], Running);
    }
  }

  lemma StaysOff(d: Sched, step: Step, h: HwThread)
    requires Inv(d) && Enabled(d, step) && AssertionsHold(d, step) && ByOthers(step, h) && h !in d.cur
    ensures h !in Apply(d, step).cur && |Apply(d, step).idle| - |Apply(d, step).cur| >= |d.idle| - |d.cur|
  {
    if step.BootStep? {
      BootCounts(d, step.h);
    } else if Reschedules(step) {
      RescheduleCounts(Before(d, step), step.h);
    }
  }

  lemma BootCounts(d: Sched, h: HwThread)
    requires Inv(d) && h !in d.cur
    ensures |BootThread(d, h).idle| == |d.idle| + 1 && |BootThread(d, h).cur| == |d.cur| + 1
  {
    assert d.nextId !in d.state && d.nextId !in d.idle;
    MapAddCount(d.cur, h, d.nextId);
  }

  lemma RescheduleCounts(b: Sched, h: HwThread)
    requires h in b.cur && b.cur[h] in b.state && Requeue(b, h).ready != []
    ensures var r := Reschedule(b, h); r.cur.Keys == b.cur.Keys && |r.cur| == |b.cur| && r.idle == b.idle
  {
    var cur := Reschedule(b, h).cur;
    assert cur.Keys == b.cur.Keys;
    assert |cur| == |cur.Keys| && |b.cur| == |b.cur.Keys|;
  }

  lemma {:induction false} SleepsThrough(d: Sched, steps: seq<Step>, h: HwThread, l: WaitList, t: Tid)
    requires Inv(d) && h !in d.cur && l in d.waits && t in d.waits[l] && |d.idle| > |d.cur|
    requires Possible(With(d, h, t), steps) && SleepsOn(With(d, h, t), steps, h, t)
    ensures Possible(d, steps) && After(With(d, h, t), steps) == With(After(d, steps), h, t)
    ensures var r := After(d, steps); Inv(r) && h !in r.cur && l in r.waits && t in r.waits[l] && |r.idle| > |r.cur|
    decreases |steps|
  {
    if steps != [] {
      OnListWaits(d, l, t);
      OthersDoTheSame(d, h, t, steps[0]);
      StaysAsleep(d, steps[0], l, t);
      StaysOff(d, steps[0], h);
      SleepsThrough(Apply(d, steps[0]), steps[1..], h, l, t);
    }
  }

  /** There is a thread to run for a hardware thread that is not looked at. */
  lemma SomeoneReady(d: Sched)
    requires Inv(d) && |d.idle| > |d.cur|
    ensures d.ready != []
  {
    if d.ready == [] {
      forall t | t in d.idle ensures t in d.cur.Values {
        assert t !in d.ready;
        assert At(d.state, t, Running);
      }
      InjectiveValues(d.cur);
      FewerOrEqual(d.idle, d.cur.Values);
    }
  }

  lemma FewerOrEqual(a: set<Tid>, b: set<Tid>)
    requires a <= b
    ensures |a| <= |b|
  {
    assert b == a + (b - a);
  }

  /** As long as nobody wakes it, whatever the others do before a thread that has joined a wait
      list gives up its hardware thread, its reschedule meets its assertions and leaves every
      thread in its place. */
  lemma UnwokenIsSafe(s: Sched, h: HwThread, l: WaitList, steps: seq<Step>)
    requires Inv(s) && Enabled(s, BlockStep(h, l))
    requires Possible(Block(s, h, l), steps) && SleepsOn(Block(s, h, l), steps, h, s.cur[h])
    ensures var t, r := s.cur[h], After(Block(s, h, l), steps);
            && h in r.cur && r.cur[h] == t && At(r.state, t, Waiting) && t !in r.ready
            && Enabled(r, YieldStep(h)) && AssertionsHold(r, YieldStep(h)) && Inv(Apply(r, YieldStep(h)))
  {
    var t, d := s.cur[h], Falling(s, h, l);
    FallingIsBlock(s, h, l);
    FallingKeeps(s, h, l);
    SleepsThrough(d, steps, h, l, t);
    OnListWaits(After(d, steps), l, t);
    LastReschedule(After(d, steps), h, t);
  }

  lemma LastReschedule(z: Sched, h: HwThread, t: Tid)
    requires Inv(z) && h !in z.cur && At(z.state, t, Waiting) && |z.idle| > |z.cur|
    ensures var r := With(z, h, t);
            Enabled(r, YieldStep(h)) && AssertionsHold(r, YieldStep(h)) && Inv(Apply(r, YieldStep(h)))
  {
    SomeoneReady(z);
    DispatchKeeps(z, h);
    SleeperReschedules(z, h, t);
  }

  lemma SleeperReschedules(z: Sched, h: HwThread, t: Tid)
    requires At(z.state, t, Waiting) && z.ready != []
    ensures var r := With(z, h, t); Requeue(r, h) == r && Reschedule(r, h) == Dispatch(z, h)
  {
    assert z.cur[h := t][h := z.ready[0]] == z.cur[h := z.ready[0]];
  }

  /** The first wake-up is what breaks it: after one more step of the others the reschedule to come
      meets its assertions exactly if that step did not wake the thread. */
  lemma WakeDecides(s: Sched, h: HwThread, l: WaitList, steps: seq<Step>, step: Step)
    requires Inv(s) && Enabled(s, BlockStep(h, l))
    requires Possible(Block(s, h, l), steps) && SleepsOn(Block(s, h, l), steps, h, s.cur[h])
    requires Enabled(After(Block(s, h, l), steps), step) && ByOthers(step, h)
    ensures var r := After(Block(s, h, l), steps);
            && AssertionsHold(r, step) && Enabled(Apply(r, step), YieldStep(h))
            && (AssertionsHold(Apply(r, step), YieldStep(h)) <==> !WakesThread(r, step, s.cur[h]))
  {
    var t, d := s.cur[h], Falling(s, h, l);
    FallingIsBlock(s, h, l);
    FallingKeeps(s, h, l);
    SleepsThrough(d, steps, h, l, t);
    var z := After(d, steps);
    OnListWaits(z, l, t);
    OthersDoTheSame(z, h, t, step);
    if WakesThread(z, step, t) {
      assert At(Apply(z, step).state, t, Ready);
    } else {
      StaysAsleep(z, step, l, t);
      StaysOff(z, step, h);
      OnListWaits(Apply(z, step), l, t);
      LastReschedule(Apply(z, step), h, t);
    }
  }

  /** If, after that, another hardware thread takes the woken thread, two of them run it. */
  lemma WokenRunsTwice(d: Sched, h: HwThread, l: WaitList, k: HwThread)
    requires Inv(d) && h !in d.cur && l in d.waits && d.waits[l] != [] && d.ready == [] && k in d.cur
    ensures var t := d.waits[l][0];
            var r := Wake(With(d, h, t), l);
            && Enabled(r, YieldStep(k)) && AssertionsHold(r, YieldStep(k))
            && var z := Apply(r, YieldStep(k)); h in z.cur && k in z.cur && h != k && z.cur[h] == z.cur[k] == t
  {
    var t := d.waits[l][0];
    assert t in d.waits[l];
    OnListWaits(d, l, t);
    assert At(d.state, d.cur[k], Running);
    assert d.cur[k] in d.cur.Values;
  }
}

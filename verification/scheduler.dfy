/** The thread scheduler: one queue of ready threads for all hardware threads. */
module Scheduler {
  type Tid = nat
  type HwThread = nat
  type WaitList = nat

  datatype ThreadState = Ready | Running | Waiting | Dead

  /** `waits` holds the wait lists threads can block on; `idle` the threads made at boot. */
  datatype Sched = Sched(cur: map<HwThread, Tid>, state: map<Tid, ThreadState>,
                         ready: seq<Tid>, dead: seq<Tid>, waits: map<WaitList, seq<Tid>>,
                         idle: set<Tid>, nextId: Tid)

  function Start(lists: set<WaitList>): Sched {
    Sched(map[], map[], [], [], map l | l in lists :: [], {}, 0)
  }

  // ------------------------------------------------------------- operations

  function BootThread(s: Sched, h: HwThread): Sched {
    s.(cur := s.cur[h := s.nextId], state := s.state[s.nextId := Running],
       idle := s.idle + {s.nextId}, nextId := s.nextId + 1)
  }

  function Spawn(s: Sched): Sched {
    s.(state := s.state[s.nextId := Ready], ready := s.ready + [s.nextId], nextId := s.nextId + 1)
  }

  /** Puts the current thread back in the queue if it still runs. */
  function Requeue(s: Sched, h: HwThread): Sched
    requires h in s.cur && s.cur[h] in s.state
  {
    var t := s.cur[h];
    if s.state[t] == Running then s.(state := s.state[t := Ready], ready := s.ready + [t]) else s
  }

  function Dispatch(s: Sched, h: HwThread): Sched
    requires s.ready != []
  {
    s.(state := s.state[s.ready[0] := Running], cur := s.cur[h := s.ready[0]], ready := s.ready[1..])
  }

  function Reschedule(s: Sched, h: HwThread): Sched
    requires h in s.cur && s.cur[h] in s.state && Requeue(s, h).ready != []
  {
    Dispatch(Requeue(s, h), h)
  }

  /** The current thread joins a wait list, or dies; what follows is a reschedule. */
  function Block(s: Sched, h: HwThread, l: WaitList): Sched
    requires h in s.cur && l in s.waits
  {
    s.(state := s.state[s.cur[h] := Waiting], waits := s.waits[l := s.waits[l] + [s.cur[h]]])
  }

  function Die(s: Sched, h: HwThread): Sched
    requires h in s.cur
  {
    s.(state := s.state[s.cur[h] := Dead], dead := s.dead + [s.cur[h]])
  }

  function Wake(s: Sched, l: WaitList): Sched
    requires l in s.waits && s.waits[l] != []
  {
    var t := s.waits[l][0];
    s.(state := s.state[t := Ready], ready := s.ready + [t], waits := s.waits[l := s.waits[l][1..]])
  }

  function Reap(s: Sched): Sched
    requires s.dead != []
  {
    s.(state := s.state - {s.dead[0]}, dead := s.dead[1..])
  }

  datatype Step =
    | BootStep(h: HwThread) | SpawnStep | YieldStep(h: HwThread)
    | BlockStep(h: HwThread, l: WaitList) | ExitStep(h: HwThread)
    | WakeStep(l: WaitList) | ReapStep

  /** What may happen next. Idle threads never block or exit: their loop only reschedules. */
  predicate Enabled(s: Sched, step: Step) {
    match step
    case BootStep(h) => h !in s.cur
    case SpawnStep => true
    case YieldStep(h) => h in s.cur && s.cur[h] in s.state
    case BlockStep(h, l) => h in s.cur && s.cur[h] in s.state && l in s.waits && s.cur[h] !in s.idle
    case ExitStep(h) => h in s.cur && s.cur[h] in s.state && s.cur[h] !in s.idle
    case WakeStep(l) => l in s.waits && s.waits[l] != []
    case ReapStep => s.dead != []
  }

  predicate Reschedules(step: Step) {
    step.YieldStep? || step.BlockStep? || step.ExitStep?
  }

  /** The state in which a step calls `reschedule`. */
  function Before(s: Sched, step: Step): Sched
    requires Enabled(s, step) && Reschedules(step)
  {
    match step
    case YieldStep(h) => s
    case BlockStep(h, l) => Block(s, h, l)
    case ExitStep(h) => Die(s, h)
  }

  /** The assertions made by `reschedule`, `make_thread_ready` and the reaper. */
  predicate AssertionsHold(s: Sched, step: Step)
    requires Enabled(s, step)
  {
    if Reschedules(step) then
      var b := Before(s, step);
      step.h in b.cur && b.cur[step.h] in b.state && b.state[b.cur[step.h]] != Ready && Requeue(b, step.h).ready != []
    else
      match step
      case WakeStep(l) => s.waits[l][0] in s.state && s.state[s.waits[l][0]] == Waiting
      case ReapStep => s.dead[0] in s.state && s.state[s.dead[0]] == Dead && s.dead[0] !in s.cur.Values
      case _ => true
  }

  function Apply(s: Sched, step: Step): Sched
    requires Enabled(s, step) && AssertionsHold(s, step)
  {
    match step
    case BootStep(h) => BootThread(s, h)
    case SpawnStep => Spawn(s)
    case WakeStep(l) => Wake(s, l)
    case ReapStep => Reap(s)
    case _ => Reschedule(Before(s, step), step.h)
  }

  // ---------------------------------------------------------------- placing

  predicate At(state: map<Tid, ThreadState>, t: Tid, place: ThreadState) {
    t in state && state[t] == place
  }

  ghost predicate Distinct(q: seq<Tid>) {
    forall i, j :: 0 <= i < j < |q| ==> q[i] != q[j]
  }

  /** The queue holds exactly the threads in one state, each once. */
  ghost predicate QueuePlaced(q: seq<Tid>, state: map<Tid, ThreadState>, place: ThreadState) {
    Distinct(q) && forall t :: t in q <==> At(state, t, place)
  }

  /** The running threads are the current ones, each on one hardware thread. */
  ghost predicate CurPlaced(cur: map<HwThread, Tid>, state: map<Tid, ThreadState>) {
    && (forall h :: h in cur ==> At(state, cur[h], Running))
    && (forall h, k :: h in cur && k in cur && cur[h] == cur[k] ==> h == k)
    && (forall t :: At(state, t, Running) ==> t in cur.Values)
  }

  /** The waiting threads are on one wait list each, and there once. */
  ghost predicate WaitsPlaced(waits: map<WaitList, seq<Tid>>, state: map<Tid, ThreadState>) {
    && (forall l :: l in waits ==> Distinct(waits[l]))
    && (forall l, t :: l in waits && t in waits[l] ==> At(state, t, Waiting))
    && (forall l, m, t :: l in waits && m in waits && t in waits[l] && t in waits[m] ==> l == m)
    && (forall t :: At(state, t, Waiting) ==> exists l :: l in waits && t in waits[l])
  }

  /** Every thread is in the one place its state says, and there only once. */
  ghost predicate Placed(s: Sched) {
    && QueuePlaced(s.ready, s.state, Ready) && QueuePlaced(s.dead, s.state, Dead)
    && CurPlaced(s.cur, s.state) && WaitsPlaced(s.waits, s.state)
    && forall t :: t in s.state ==> t < s.nextId
  }

  /** Idle threads run or are ready. */
  ghost predicate IdlesLive(s: Sched) {
    forall t :: t in s.idle ==> t in s.state && (s.state[t] == Running || s.state[t] == Ready)
  }

  /** An idle thread for each hardware thread that runs, and none of them ever leaves. */
  ghost predicate Idling(s: Sched) {
    |s.idle| >= |s.cur| && IdlesLive(s)
  }

  ghost predicate Inv(s: Sched) {
    Placed(s) && Idling(s)
  }

  // ------------------------------------------------------------- pigeonhole

  lemma {:induction false} InjectiveValues(m: map<HwThread, Tid>)
    requires forall h, k :: h in m && k in m && h != k ==> m[h] != m[k]
    ensures |m.Values| == |m|
    decreases |m|
  {
    if m.Keys == {} {
      assert m.Values == {};
      assert |m| == |m.Keys|;
    } else {
      var h :| h in m;
      var rest := m - {h};
      InjectiveValues(rest);
      assert rest.Keys == m.Keys - {h};
      assert |rest| == |rest.Keys| && |m| == |m.Keys|;
      assert m.Values == rest.Values + {m[h]} by {
        forall v | v in m.Values ensures v in rest.Values + {m[h]} {
          var k :| k in m && m[k] == v;
          if k != h {
            assert k in rest && rest[k] == v;
          }
        }
      }
      assert m[h] !in rest.Values;
    }
  }

  lemma SubsetNoSmaller(a: set<Tid>, b: set<Tid>)
    requires a <= b && |a| >= |b|
    ensures a == b
  {
    assert |b - a| == |b| - |a|;
  }

  /** If no thread is ready, every hardware thread runs an idle thread. */
  lemma OnlyIdleRun(s: Sched, h: HwThread)
    requires Inv(s) && s.ready == [] && h in s.cur
    ensures s.cur[h] in s.idle
  {
    forall t | t in s.idle ensures t in s.cur.Values {
      assert t !in s.ready;
      assert At(s.state, t, Running);
    }
    InjectiveValues(s.cur);
    SubsetNoSmaller(s.idle, s.cur.Values);
    assert s.cur[h] in s.cur.Values;
  }

  /** Whatever happens next, no assertion fails: there always is a thread to run. */
  lemma AssertionsAlwaysHold(s: Sched, step: Step)
    requires Inv(s) && Enabled(s, step)
    ensures AssertionsHold(s, step)
  {
    if step.BlockStep? || step.ExitStep? {
      if s.ready == [] {
        OnlyIdleRun(s, step.h);
      }
    } else if step.ReapStep? {
      assert s.dead[0] in s.dead;
      assert At(s.state, s.dead[0], Dead);
    } else if step.WakeStep? {
      assert s.waits[step.l][0] in s.waits[step.l];
      assert At(s.state, s.waits[step.l][0], Waiting);
    }
    if Reschedules(step) {
      assert At(s.state, s.cur[step.h], Running);
    }
  }

  // -------------------------------------------- taking threads out and back

  /** The hardware thread and its thread, taken out of the system for a moment. */
  function TakeCurrent(s: Sched, h: HwThread): Sched
    requires h in s.cur
  {
    s.(cur := s.cur - {h}, state := s.state - {s.cur[h]})
  }

  function TakeWaiting(s: Sched, l: WaitList): Sched
    requires l in s.waits && s.waits[l] != []
  {
    s.(state := s.state - {s.waits[l][0]}, waits := s.waits[l := s.waits[l][1..]])
  }

  function PutReady(s: Sched, t: Tid): Sched {
    s.(state := s.state[t := Ready], ready := s.ready + [t])
  }

  function PutWaiting(s: Sched, t: Tid, l: WaitList): Sched
    requires l in s.waits
  {
    s.(state := s.state[t := Waiting], waits := s.waits[l := s.waits[l] + [t]])
  }

  function PutDead(s: Sched, t: Tid): Sched {
    s.(state := s.state[t := Dead], dead := s.dead + [t])
  }

  /** The two maps agree on which threads are in a state. */
  ghost predicate Agree(state: map<Tid, ThreadState>, other: map<Tid, ThreadState>, place: ThreadState) {
    forall t :: At(state, t, place) <==> At(other, t, place)
  }

  lemma CurFrame(cur: map<HwThread, Tid>, state: map<Tid, ThreadState>, other: map<Tid, ThreadState>)
    requires CurPlaced(cur, state) && Agree(state, other, Running)
    ensures CurPlaced(cur, other)
  {
  }

  lemma WaitsFrame(waits: map<WaitList, seq<Tid>>, state: map<Tid, ThreadState>, other: map<Tid, ThreadState>)
    requires WaitsPlaced(waits, state) && Agree(state, other, Waiting)
    ensures WaitsPlaced(waits, other)
  {
    forall t | At(other, t, Waiting) ensures exists l :: l in waits && t in waits[l] {
      assert At(state, t, Waiting);
    }
  }

  lemma QueueAppend(q: seq<Tid>, t: Tid, state: map<Tid, ThreadState>, place: ThreadState)
    requires QueuePlaced(q, state, place) && t !in state
    ensures QueuePlaced(q + [t], state[t := place], place)
  {
    assert t !in q by { assert !At(state, t, place); }
    forall u ensures u in q + [t] <==> At(state[t := place], u, place) {
      assert u in q <==> At(state, u, place);
    }
  }

  lemma QueueTake(q: seq<Tid>, state: map<Tid, ThreadState>, place: ThreadState, other: map<Tid, ThreadState>)
    requires QueuePlaced(q, state, place) && q != []
    requires forall u :: At(other, u, place) <==> At(state, u, place) && u != q[0]
    ensures QueuePlaced(q[1..], other, place)
  {
    assert q == [q[0]] + q[1..];
    assert q[0] !in q[1..];
    forall u ensures u in q[1..] <==> At(other, u, place) {
      assert u in q <==> At(state, u, place);
    }
  }

  lemma CurRemove(cur: map<HwThread, Tid>, h: HwThread, state: map<Tid, ThreadState>)
    requires CurPlaced(cur, state) && h in cur
    ensures CurPlaced(cur - {h}, state - {cur[h]})
  {
    forall t | At(state - {cur[h]}, t, Running) ensures t in (cur - {h}).Values {
      assert At(state, t, Running);
      var k :| k in cur && cur[k] == t;
      assert (cur - {h})[k] == t;
    }
  }

  lemma CurAdd(cur: map<HwThread, Tid>, h: HwThread, t: Tid, state: map<Tid, ThreadState>)
    requires CurPlaced(cur, state) && h !in cur && !At(state, t, Running)
    ensures CurPlaced(cur[h := t], state[t := Running])
  {
    var cur' := cur[h := t];
    forall u | At(state[t := Running], u, Running) ensures u in cur'.Values {
      if u == t {
        assert cur'[h] == t;
      } else {
        assert At(state, u, Running);
        var k :| k in cur && cur[k] == u;
        assert cur'[k] == u;
      }
    }
    forall k | k in cur' ensures At(state[t := Running], cur'[k], Running) {
    }
  }

  lemma WaitsAdd(waits: map<WaitList, seq<Tid>>, l: WaitList, t: Tid, state: map<Tid, ThreadState>)
    requires WaitsPlaced(waits, state) && l in waits && t !in state
    ensures WaitsPlaced(waits[l := waits[l] + [t]], state[t := Waiting])
  {
    var w' := waits[l := waits[l] + [t]];
    var state' := state[t := Waiting];
    forall m | m in waits ensures t !in waits[m] {
      assert !At(state, t, Waiting);
    }
    forall m, u | m in w' && u in w'[m] ensures At(state', u, Waiting) && (u != t ==> u in waits[m]) && (u == t ==> m == l) {
      if u != t {
        assert u in waits[m];
        assert At(state, u, Waiting);
      }
    }
    forall u | At(state', u, Waiting) ensures exists m :: m in w' && u in w'[m] {
      if u == t {
        assert u in w'[l];
      } else {
        assert At(state, u, Waiting);
        var m :| m in waits && u in waits[m];
        assert u in w'[m];
      }
    }
  }

  lemma WaitsTake(waits: map<WaitList, seq<Tid>>, l: WaitList, state: map<Tid, ThreadState>)
    requires WaitsPlaced(waits, state) && l in waits && waits[l] != []
    ensures WaitsPlaced(waits[l := waits[l][1..]], state - {waits[l][0]})
  {
    var t := waits[l][0];
    var w' := waits[l := waits[l][1..]];
    assert waits[l] == [t] + w'[l];
    assert t in waits[l] && t !in w'[l];
    forall u | At(state - {t}, u, Waiting) ensures exists m :: m in w' && u in w'[m] {
      assert At(state, u, Waiting);
      var m :| m in waits && u in waits[m];
      assert u in w'[m];
    }
    forall m, u | m in w' && u in w'[m] ensures u in waits[m] && At(state - {t}, u, Waiting) {
      assert u in waits[m];
      assert At(state, u, Waiting);
    }
  }

  lemma TakeCurrentPlaced(s: Sched, h: HwThread)
    requires Placed(s) && h in s.cur
    ensures Placed(TakeCurrent(s, h))
  {
    assert At(s.state, s.cur[h], Running);
    var state' := TakeCurrent(s, h).state;
    CurRemove(s.cur, h, s.state);
    WaitsFrame(s.waits, s.state, state');
  }

  lemma TakeWaitingPlaced(s: Sched, l: WaitList)
    requires Placed(s) && l in s.waits && s.waits[l] != []
    ensures Placed(TakeWaiting(s, l))
  {
    assert s.waits[l][0] in s.waits[l];
    assert At(s.state, s.waits[l][0], Waiting);
    WaitsTake(s.waits, l, s.state);
    CurFrame(s.cur, s.state, TakeWaiting(s, l).state);
  }

  lemma PutReadyPlaced(s: Sched, t: Tid)
    requires Placed(s) && t !in s.state && t < s.nextId
    ensures Placed(PutReady(s, t))
  {
    QueueAppend(s.ready, t, s.state, Ready);
    CurFrame(s.cur, s.state, PutReady(s, t).state);
    WaitsFrame(s.waits, s.state, PutReady(s, t).state);
    assert Agree(s.state, PutReady(s, t).state, Dead);
  }

  lemma PutDeadPlaced(s: Sched, t: Tid)
    requires Placed(s) && t !in s.state && t < s.nextId
    ensures Placed(PutDead(s, t))
  {
    QueueAppend(s.dead, t, s.state, Dead);
    CurFrame(s.cur, s.state, PutDead(s, t).state);
    WaitsFrame(s.waits, s.state, PutDead(s, t).state);
    assert Agree(s.state, PutDead(s, t).state, Ready);
  }

  lemma PutWaitingPlaced(s: Sched, t: Tid, l: WaitList)
    requires Placed(s) && t !in s.state && t < s.nextId && l in s.waits
    ensures Placed(PutWaiting(s, t, l))
  {
    WaitsAdd(s.waits, l, t, s.state);
    CurFrame(s.cur, s.state, PutWaiting(s, t, l).state);
    assert Agree(s.state, PutWaiting(s, t, l).state, Ready);
    assert Agree(s.state, PutWaiting(s, t, l).state, Dead);
  }

  lemma DispatchPlaced(s: Sched, h: HwThread)
    requires Placed(s) && h !in s.cur && s.ready != []
    ensures Placed(Dispatch(s, h))
  {
    var t, s' := s.ready[0], Dispatch(s, h);
    assert t in s.ready;
    assert At(s.state, t, Ready);
    QueueTake(s.ready, s.state, Ready, s'.state);
    CurAdd(s.cur, h, t, s.state);
    WaitsFrame(s.waits, s.state, s'.state);
    assert Agree(s.state, s'.state, Dead);
  }

  // ------------------------------------------------------------- every step

  /** A reschedule takes the current thread out, puts it where it belongs, and takes the
      first ready thread. */
  function SetAside(s: Sched, step: Step): Sched
    requires Enabled(s, step) && Reschedules(step)
  {
    var t := s.cur[step.h];
    match step
    case YieldStep(h) => PutReady(TakeCurrent(s, h), t)
    case BlockStep(h, l) => PutWaiting(TakeCurrent(s, h), t, l)
    case ExitStep(h) => PutDead(TakeCurrent(s, h), t)
  }

  lemma SetAsidePlaced(s: Sched, step: Step)
    requires Inv(s) && Enabled(s, step) && Reschedules(step)
    ensures Placed(SetAside(s, step)) && step.h !in SetAside(s, step).cur
  {
    var h, t := step.h, s.cur[step.h];
    TakeCurrentPlaced(s, h);
    match step
    case YieldStep(_) => PutReadyPlaced(TakeCurrent(s, h), t);
    case BlockStep(_, l) => PutWaitingPlaced(TakeCurrent(s, h), t, l);
    case ExitStep(_) => PutDeadPlaced(TakeCurrent(s, h), t);
  }

  lemma RescheduleIsDispatch(s: Sched, step: Step)
    requires Inv(s) && Enabled(s, step) && Reschedules(step)
    ensures AssertionsHold(s, step)
    ensures SetAside(s, step).ready == s.ready + if step.YieldStep? then [s.cur[step.h]] else []
    ensures SetAside(s, step).ready != []
    ensures Apply(s, step) == Dispatch(SetAside(s, step), step.h)
  {
    AssertionsAlwaysHold(s, step);
    assert At(s.state, s.cur[step.h], Running);
    var s', d := Apply(s, step), Dispatch(SetAside(s, step), step.h);
    assert s'.state == d.state;
    assert s'.cur == d.cur;
  }

  lemma RescheduleKeeps(s: Sched, step: Step)
    requires Inv(s) && Enabled(s, step) && Reschedules(step)
    ensures AssertionsHold(s, step) && Inv(Apply(s, step))
  {
    RescheduleIsDispatch(s, step);
    SetAsidePlaced(s, step);
    SetAsideIdling(s, step);
    DispatchKeeps(SetAside(s, step), step.h);
  }

  lemma MapAddCount(m: map<HwThread, Tid>, h: HwThread, t: Tid)
    requires h !in m
    ensures |m[h := t]| == |m| + 1
  {
    assert m[h := t].Keys == m.Keys + {h};
    assert |m[h := t]| == |m[h := t].Keys| && |m| == |m.Keys|;
  }

  lemma MapRemoveCount(m: map<HwThread, Tid>, h: HwThread)
    requires h in m
    ensures |m - {h}| == |m| - 1
  {
    assert (m - {h}).Keys == m.Keys - {h};
    assert |m - {h}| == |(m - {h}).Keys| && |m| == |m.Keys|;
  }

  lemma SetAsideIdling(s: Sched, step: Step)
    requires Inv(s) && Enabled(s, step) && Reschedules(step)
    ensures var d := SetAside(s, step); IdlesLive(d) && d.idle == s.idle && |d.cur| + 1 == |s.cur|
  {
    MapRemoveCount(s.cur, step.h);
  }

  /** A hardware thread that is free takes the first ready thread. */
  lemma DispatchKeeps(d: Sched, h: HwThread)
    requires Placed(d) && IdlesLive(d) && d.ready != [] && h !in d.cur && |d.idle| > |d.cur|
    ensures Inv(Dispatch(d, h))
  {
    DispatchPlaced(d, h);
    MapAddCount(d.cur, h, d.ready[0]);
  }

  lemma BootPlaced(s: Sched, h: HwThread)
    requires Inv(s) && h !in s.cur
    ensures Placed(BootThread(s, h))
  {
    var state' := BootThread(s, h).state;
    CurAdd(s.cur, h, s.nextId, s.state);
    WaitsFrame(s.waits, s.state, state');
    assert Agree(s.state, state', Ready) && Agree(s.state, state', Dead);
  }

  lemma BootKeeps(s: Sched, h: HwThread)
    requires Inv(s) && h !in s.cur
    ensures Inv(BootThread(s, h))
  {
    BootPlaced(s, h);
    assert s.nextId !in s.state;
    BootIdling(s, h);
  }

  lemma BootIdling(s: Sched, h: HwThread)
    requires Idling(s) && h !in s.cur && s.nextId !in s.state
    ensures Idling(BootThread(s, h))
  {
    var cur' := s.cur[h := s.nextId];
    assert cur'.Keys == s.cur.Keys + {h};
    assert |cur'| == |cur'.Keys| && |s.cur| == |s.cur.Keys|;
    assert s.nextId !in s.idle;
  }

  lemma ReapKeeps(s: Sched)
    requires Inv(s) && s.dead != []
    ensures Inv(Reap(s))
  {
    var s' := Reap(s);
    assert s.dead[0] in s.dead;
    assert At(s.state, s.dead[0], Dead);
    QueueTake(s.dead, s.state, Dead, s'.state);
    CurFrame(s.cur, s.state, s'.state);
    WaitsFrame(s.waits, s.state, s'.state);
    assert Agree(s.state, s'.state, Ready);
  }

  lemma WakeKeeps(s: Sched, l: WaitList)
    requires Inv(s) && l in s.waits && s.waits[l] != []
    ensures Inv(Wake(s, l))
  {
    var t := s.waits[l][0];
    assert t in s.waits[l];
    assert At(s.state, t, Waiting);
    TakeWaitingPlaced(s, l);
    PutReadyPlaced(TakeWaiting(s, l), t);
    assert Wake(s, l).state == PutReady(TakeWaiting(s, l), t).state;
    assert Wake(s, l) == PutReady(TakeWaiting(s, l), t);
  }

  lemma SpawnKeeps(s: Sched)
    requires Inv(s)
    ensures Inv(Spawn(s))
  {
    PutReadyPlaced(s.(nextId := s.nextId + 1), s.nextId);
  }

  lemma StepKeepsInv(s: Sched, step: Step)
    requires Inv(s) && Enabled(s, step)
    ensures AssertionsHold(s, step) && Inv(Apply(s, step))
  {
    AssertionsAlwaysHold(s, step);
    match step
    case BootStep(h) => BootKeeps(s, h);
    case SpawnStep => SpawnKeeps(s);
    case WakeStep(l) => WakeKeeps(s, l);
    case ReapStep => ReapKeeps(s);
    case _ => RescheduleKeeps(s, step);
  }

  // ------------------------------------------------------------------- runs

  predicate Possible(s: Sched, steps: seq<Step>)
    decreases |steps|
  {
    steps == [] ||
    (Enabled(s, steps[0]) && AssertionsHold(s, steps[0]) && Possible(Apply(s, steps[0]), steps[1..]))
  }

  function After(s: Sched, steps: seq<Step>): Sched
    requires Possible(s, steps)
    decreases |steps|
  {
    if steps == [] then s else After(Apply(s, steps[0]), steps[1..])
  }

  lemma {:induction false} RunKeepsInv(s: Sched, steps: seq<Step>)
    requires Inv(s) && Possible(s, steps)
    ensures Inv(After(s, steps))
    decreases |steps|
  {
    if steps != [] {
      StepKeepsInv(s, steps[0]);
      RunKeepsInv(Apply(s, steps[0]), steps[1..]);
    }
  }

  /** In every run from boot, every thread is in exactly one place, whatever step comes next
      meets its assertions, and no dead thread is ever run. */
  lemma AlwaysPlaced(lists: set<WaitList>, steps: seq<Step>, next: Step)
    requires Possible(Start(lists), steps)
    ensures var s := After(Start(lists), steps);
            Placed(s) && (Enabled(s, next) ==> AssertionsHold(s, next))
            && forall h :: h in s.cur ==> s.cur[h] in s.state && s.state[s.cur[h]] != Dead
  {
    RunKeepsInv(Start(lists), steps);
    var s := After(Start(lists), steps);
    if Enabled(s, next) {
      AssertionsAlwaysHold(s, next);
    }
  }

  function CountReschedules(steps: seq<Step>): nat {
    if steps == [] then 0 else (if Reschedules(steps[0]) then 1 else 0) + CountReschedules(steps[1..])
  }

  lemma QueueMoves(s: Sched, step: Step, k: nat)
    requires Inv(s) && Enabled(s, step) && k < |s.ready|
    ensures AssertionsHold(s, step)
    ensures var s' := Apply(s, step);
            if !Reschedules(step) then k < |s'.ready| && s'.ready[k] == s.ready[k]
            else if k > 0 then k - 1 < |s'.ready| && s'.ready[k - 1] == s.ready[k]
            else step.h in s'.cur && s'.cur[step.h] == s.ready[0]
  {
    AssertionsAlwaysHold(s, step);
    if Reschedules(step) {
      RescheduleIsDispatch(s, step);
    }
  }

  /** The thread at position `k` of the ready queue runs at the `k + 1`st reschedule. */
  lemma {:induction false} ServedInOrder(s: Sched, steps: seq<Step>, k: nat, last: Step)
    requires Inv(s) && Possible(s, steps) && k < |s.ready| && CountReschedules(steps) == k
    requires Enabled(After(s, steps), last) && Reschedules(last)
    ensures AssertionsHold(After(s, steps), last)
    ensures last.h in Apply(After(s, steps), last).cur
    ensures Apply(After(s, steps), last).cur[last.h] == s.ready[k]
    decreases |steps|
  {
    if steps == [] {
      QueueMoves(s, last, 0);
    } else {
      StepKeepsInv(s, steps[0]);
      QueueMoves(s, steps[0], k);
      ServedInOrder(Apply(s, steps[0]), steps[1..], if Reschedules(steps[0]) then k - 1 else k, last);
    }
  }
}

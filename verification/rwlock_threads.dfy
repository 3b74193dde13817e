/** Any number of threads using one lock, in any order of steps. */
module RwLockThreads {
  import opened RwLock

  /** A thread that was woken has been handed the lock but has yet to run. */
  datatype Role = Idle | ReadQueued | ReadHanded | Reading | WriteQueued | WriteHanded | Writing

  datatype Event =
    | ReaderQueued(t: Tid) | ReaderEntered(t: Tid) | ReadersAdmitted(ts: seq<Tid>)
    | WriterQueued(t: Tid) | WriterEntered(t: Tid, queued: bool)

  datatype World = World(lock: Lock, role: map<Tid, Role>, log: seq<Event>)

  datatype Step = LockRead(t: Tid) | UnlockRead(t: Tid) | LockWrite(t: Tid) | UnlockWrite(t: Tid) | Resume(t: Tid)

  function Start(threads: set<Tid>): World {
    World(UNLOCKED, map t | t in threads :: Idle, [])
  }

  predicate Enabled(w: World, s: Step) {
    s.t in w.role &&
    match s
    case LockRead(t) => w.role[t] == Idle
    case LockWrite(t) => w.role[t] == Idle
    case UnlockRead(t) => w.role[t] == Reading
    case UnlockWrite(t) => w.role[t] == Writing
    case Resume(t) => w.role[t] == ReadHanded || w.role[t] == WriteHanded
  }

  function Handed(role: map<Tid, Role>, ts: seq<Tid>): map<Tid, Role> {
    map t | t in role ::
      if t in ts then (if role[t] == ReadQueued then ReadHanded else WriteHanded) else role[t]
  }

  function Apply(w: World, s: Step): World
    requires Enabled(w, s)
  {
    match s
    case LockRead(t) =>
      w.(lock := EnterRead(w.lock, t),
         role := w.role[t := if ReaderWaits(w.lock) then ReadQueued else Reading],
         log := w.log + [if ReaderWaits(w.lock) then ReaderQueued(t) else ReaderEntered(t)])
    case UnlockRead(t) =>
      var woken := WokenByReader(w.lock);
      w.(lock := LeaveRead(w.lock), role := Handed(w.role[t := Idle], woken),
         log := if woken == [] then w.log else w.log + [WriterEntered(woken[0], true)])
    case LockWrite(t) =>
      w.(lock := EnterWrite(w.lock, t),
         role := w.role[t := if WriterWaits(w.lock) then WriteQueued else Writing],
         log := w.log + [if WriterWaits(w.lock) then WriterQueued(t) else WriterEntered(t, false)])
    case UnlockWrite(t) =>
      var woken := WokenByWriter(w.lock);
      w.(lock := LeaveWrite(w.lock), role := Handed(w.role[t := Idle], woken),
         log := if woken == [] then w.log
                else if w.lock.readers != [] then w.log + [ReadersAdmitted(woken)]
                else w.log + [WriterEntered(woken[0], true)])
    case Resume(t) =>
      w.(lock := if w.role[t] == WriteHanded then w.lock.(writeLocked := true) else w.lock,
         role := w.role[t := if w.role[t] == WriteHanded then Writing else Reading])
  }

  /** The assertions the operations make on their way. */
  predicate AssertionsHold(w: World, s: Step)
    requires Enabled(w, s)
  {
    match s
    case LockRead(t) => !ReaderWaits(w.lock) ==> !EnterRead(w.lock, t).writeLocked
    case LockWrite(t) => !WriterWaits(w.lock) ==> w.lock.activeReadCount == 0
    case UnlockRead(t) =>
      && !w.lock.writeLocked && w.lock.activeReadCount > 0
      && forall u :: u in WokenByReader(w.lock) ==> u in w.role && w.role[u] == WriteQueued
    case UnlockWrite(t) =>
      && w.lock.writeLocked && w.lock.activeReadCount == 0
      && forall u :: u in WokenByWriter(w.lock) ==> u in w.role && (w.role[u] == ReadQueued || w.role[u] == WriteQueued)
    case Resume(t) => if w.role[t] == WriteHanded then w.lock.activeReadCount == 0 else !w.lock.writeLocked
  }

  // ----------------------------------------------------------------- safety

  function Holding(role: map<Tid, Role>): set<Tid> {
    set t | t in role && (role[t] == Reading || role[t] == ReadHanded)
  }

  function Owners(role: map<Tid, Role>): set<Tid> {
    set t | t in role && (role[t] == Writing || role[t] == WriteHanded)
  }

  ghost predicate Distinct(s: seq<Tid>) {
    forall i, j :: 0 <= i < j < |s| ==> s[i] != s[j]
  }

  ghost predicate Safe(w: World) {
    && w.lock.activeReadCount == |Holding(w.role)|
    && |Owners(w.role)| == (if w.lock.writeLocked then 1 else 0)
    && (w.lock.writeLocked ==> w.lock.activeReadCount == 0)
    && (w.lock.readers + w.lock.writers != [] ==> w.lock.writeLocked || w.lock.activeReadCount > 0)
  }

  ghost predicate Queues(w: World) {
    && Distinct(w.lock.readers) && Distinct(w.lock.writers)
    && (forall t :: t in w.lock.readers <==> t in w.role && w.role[t] == ReadQueued)
    && (forall t :: t in w.lock.writers <==> t in w.role && w.role[t] == WriteQueued)
    && (w.lock.readers != [] ==> w.lock.writeLocked || w.lock.writers != [])
  }

  // --------------------------------------------------------------- fairness

  /** Writers that have entered since thread `t` last queued. */
  function WritersSince(log: seq<Event>, t: Tid): nat {
    if log == [] then 0
    else
      var last := log[|log| - 1];
      if last == ReaderQueued(t) || last == WriterQueued(t) then 0
      else WritersSince(log[..|log| - 1], t) + if last.WriterEntered? then 1 else 0
  }

  /** Batches of waiting readers admitted since thread `t` last queued. */
  function BatchesSince(log: seq<Event>, t: Tid): nat {
    if log == [] then 0
    else
      var last := log[|log| - 1];
      if last == ReaderQueued(t) || last == WriterQueued(t) then 0
      else BatchesSince(log[..|log| - 1], t) + if last.ReadersAdmitted? then 1 else 0
  }

  /** Readers that entered without queueing since thread `t` last queued. */
  function NewReadersSince(log: seq<Event>, t: Tid): nat {
    if log == [] then 0
    else
      var last := log[|log| - 1];
      if last == ReaderQueued(t) || last == WriterQueued(t) then 0
      else NewReadersSince(log[..|log| - 1], t) + if last.ReaderEntered? then 1 else 0
  }

  /** Batches of readers admitted since a writer last entered. */
  function BatchesAfterWriter(log: seq<Event>): nat {
    if log == [] then 0
    else
      var last := log[|log| - 1];
      if last.WriterEntered? then 0
      else BatchesAfterWriter(log[..|log| - 1]) + if last.ReadersAdmitted? then 1 else 0
  }

  /** The writers that queued, and those that were served from the queue, in order. */
  function QueuedWriters(log: seq<Event>): seq<Tid> {
    if log == [] then []
    else
      var last := log[|log| - 1];
      QueuedWriters(log[..|log| - 1]) + if last.WriterQueued? then [last.t] else []
  }

  function ServedWriters(log: seq<Event>): seq<Tid> {
    if log == [] then []
    else
      var last := log[|log| - 1];
      ServedWriters(log[..|log| - 1]) + if last.WriterEntered? && last.queued then [last.t] else []
  }

  ghost predicate Fair(w: World) {
    && (forall t :: t in w.lock.readers ==> WritersSince(w.log, t) <= if w.lock.writeLocked then 1 else 0)
    && (forall t :: t in w.lock.writers ==>
          && NewReadersSince(w.log, t) == 0
          && BatchesSince(w.log, t) <= WritersSince(w.log, t) + if w.lock.writeLocked then 0 else 1)
    && BatchesAfterWriter(w.log) <= (if w.lock.writeLocked then 0 else 1)
    && QueuedWriters(w.log) == ServedWriters(w.log) + w.lock.writers
  }

  ghost predicate Inv(w: World) {
    Safe(w) && Queues(w) && Fair(w)
  }

  // ----------------------------------------------------------------- proofs

  lemma LogStep(log: seq<Event>, e: Event, t: Tid)
    ensures WritersSince(log + [e], t) ==
            if e == ReaderQueued(t) || e == WriterQueued(t) then 0
            else WritersSince(log, t) + if e.WriterEntered? then 1 else 0
    ensures BatchesSince(log + [e], t) ==
            if e == ReaderQueued(t) || e == WriterQueued(t) then 0
            else BatchesSince(log, t) + if e.ReadersAdmitted? then 1 else 0
    ensures NewReadersSince(log + [e], t) ==
            if e == ReaderQueued(t) || e == WriterQueued(t) then 0
            else NewReadersSince(log, t) + if e.ReaderEntered? then 1 else 0
    ensures BatchesAfterWriter(log + [e]) ==
            if e.WriterEntered? then 0 else BatchesAfterWriter(log) + if e.ReadersAdmitted? then 1 else 0
    ensures QueuedWriters(log + [e]) == QueuedWriters(log) + if e.WriterQueued? then [e.t] else []
    ensures ServedWriters(log + [e]) == ServedWriters(log) + if e.WriterEntered? && e.queued then [e.t] else []
  {
    assert (log + [e])[..|log|] == log;
  }

  function Elements(s: seq<Tid>): set<Tid> {
    set t | t in s
  }

  lemma {:induction false} DistinctCount(s: seq<Tid>)
    requires Distinct(s)
    ensures |Elements(s)| == |s|
  {
    if s == [] {
      assert Elements(s) == {};
    } else {
      DistinctCount(s[1..]);
      assert s[0] !in s[1..];
      assert Elements(s) == {s[0]} + Elements(s[1..]);
    }
  }

  /** How a change of one thread's role changes who holds the lock. */
  lemma SetRole(role: map<Tid, Role>, t: Tid, r: Role)
    requires t in role
    ensures Holding(role[t := r]) ==
            if r == Reading || r == ReadHanded then Holding(role) + {t} else Holding(role) - {t}
    ensures Owners(role[t := r]) ==
            if r == Writing || r == WriteHanded then Owners(role) + {t} else Owners(role) - {t}
  {
  }

  lemma HandRoles(role: map<Tid, Role>, ts: seq<Tid>)
    requires forall t :: t in ts ==> t in role
    requires (forall t :: t in ts ==> role[t] == ReadQueued) || (forall t :: t in ts ==> role[t] == WriteQueued)
    ensures (forall t :: t in ts ==> role[t] == ReadQueued) ==>
              Holding(Handed(role, ts)) == Holding(role) + Elements(ts) && Owners(Handed(role, ts)) == Owners(role)
    ensures (forall t :: t in ts ==> role[t] == WriteQueued) ==>
              Owners(Handed(role, ts)) == Owners(role) + Elements(ts) && Holding(Handed(role, ts)) == Holding(role)
  {
  }

  lemma SoleOwner(w: World, t: Tid)
    requires Safe(w) && t in Owners(w.role)
    ensures w.lock.writeLocked && Owners(w.role) == {t} && Holding(w.role) == {}
  {
    assert |Owners(w.role) - {t}| == 0;
  }

  // ------------------------------------------------------------ each step

  /** A thread joins the end of a queue, or changes its role without being queued. */
  lemma JoinQueues(w: World, w': World, t: Tid)
    requires Queues(w) && t in w.role && w.role[t] != ReadQueued && w.role[t] != WriteQueued
    requires t in w'.role && w'.role == w.role[t := w'.role[t]]
    requires w'.lock.readers == w.lock.readers + if w'.role[t] == ReadQueued then [t] else []
    requires w'.lock.writers == w.lock.writers + if w'.role[t] == WriteQueued then [t] else []
    requires w'.lock.readers != [] ==> w'.lock.writeLocked || w'.lock.writers != []
    ensures Queues(w')
  {
    assert w.lock.readers + [] == w.lock.readers && w.lock.writers + [] == w.lock.writers;
  }

  lemma LockReadFair(w: World, t: Tid)
    requires Inv(w) && Enabled(w, LockRead(t))
    ensures Fair(Apply(w, LockRead(t)))
  {
    forall u { LogStep(w.log, Apply(w, LockRead(t)).log[|w.log|], u); }
  }

  lemma LockReadSafe(w: World, t: Tid)
    requires Inv(w) && Enabled(w, LockRead(t))
    ensures Safe(Apply(w, LockRead(t)))
  {
    SetRole(w.role, t, Apply(w, LockRead(t)).role[t]);
    assert t !in Holding(w.role) && t !in Owners(w.role);
  }

  lemma LockReadKeeps(w: World, t: Tid)
    requires Inv(w) && Enabled(w, LockRead(t))
    ensures Inv(Apply(w, LockRead(t)))
  {
    var w' := Apply(w, LockRead(t));
    LockReadSafe(w, t);
    JoinQueues(w, w', t);
    LockReadFair(w, t);
  }

  lemma LockWriteFair(w: World, t: Tid)
    requires Inv(w) && Enabled(w, LockWrite(t))
    ensures Fair(Apply(w, LockWrite(t)))
  {
    if !WriterWaits(w.lock) {
      assert w.lock.readers + w.lock.writers == [];
    }
    forall u { LogStep(w.log, Apply(w, LockWrite(t)).log[|w.log|], u); }
  }

  lemma LockWriteKeeps(w: World, t: Tid)
    requires Inv(w) && Enabled(w, LockWrite(t))
    ensures Inv(Apply(w, LockWrite(t)))
  {
    var w' := Apply(w, LockWrite(t));
    SetRole(w.role, t, w'.role[t]);
    assert t !in Holding(w.role) && t !in Owners(w.role);
    if !WriterWaits(w.lock) {
      assert w.lock.readers + w.lock.writers == [];
    }
    assert Safe(w');
    JoinQueues(w, w', t);
    LockWriteFair(w, t);
  }

  /** A thread that held the lock leaves, and those it wakes leave their queue. */
  lemma LeaveQueues(w: World, w': World, t: Tid, woken: seq<Tid>)
    requires Queues(w) && t in w.role && w.role[t] != ReadQueued && w.role[t] != WriteQueued
    requires w'.role == Handed(w.role[t := Idle], woken)
    requires || (woken == w.lock.readers && w'.lock.readers == [] && w'.lock.writers == w.lock.writers)
             || (woken + w'.lock.writers == w.lock.writers && w'.lock.readers == w.lock.readers)
    requires w'.lock.readers != [] ==> w'.lock.writeLocked || w'.lock.writers != []
    ensures Queues(w')
  {
    if woken + w'.lock.writers == w.lock.writers {
      assert forall j :: 0 <= j < |w'.lock.writers| ==> w'.lock.writers[j] == w.lock.writers[|woken| + j];
    }
    forall u ensures u in w'.lock.writers <==> u in w'.role && w'.role[u] == WriteQueued {
      if u in w.lock.writers && woken + w'.lock.writers == w.lock.writers {
        var k :| 0 <= k < |w.lock.writers| && w.lock.writers[k] == u;
        if k < |woken| {
          assert woken[k] == u;
          assert forall j :: 0 <= j < |w'.lock.writers| ==> w'.lock.writers[j] == w.lock.writers[|woken| + j];
        } else {
          assert w'.lock.writers[k - |woken|] == u;
          assert forall j :: 0 <= j < |woken| ==> woken[j] == w.lock.writers[j];
        }
      }
    }
  }

  lemma UnlockReadRoles(w: World, t: Tid)
    requires Inv(w) && Enabled(w, UnlockRead(t))
    ensures var role := Apply(w, UnlockRead(t)).role;
            && t in Holding(w.role) && !w.lock.writeLocked
            && Holding(role) == Holding(w.role) - {t}
            && Owners(role) == Owners(w.role) + Elements(WokenByReader(w.lock))
  {
    assert t in Holding(w.role);
    SetRole(w.role, t, Idle);
    HandRoles(w.role[t := Idle], WokenByReader(w.lock));
    assert t !in Owners(w.role);
  }

  lemma UnlockReadSafe(w: World, t: Tid)
    requires Inv(w) && Enabled(w, UnlockRead(t))
    ensures Safe(Apply(w, UnlockRead(t)))
  {
    UnlockReadRoles(w, t);
    if HandsToWriter(w.lock) {
      assert Elements([w.lock.writers[0]]) == {w.lock.writers[0]};
    } else {
      assert Elements([]) == {};
    }
  }

  lemma UnlockReadKeeps(w: World, t: Tid)
    requires Inv(w) && Enabled(w, UnlockRead(t))
    ensures Inv(Apply(w, UnlockRead(t)))
  {
    var w' := Apply(w, UnlockRead(t));
    UnlockReadSafe(w, t);
    LeaveQueues(w, w', t, WokenByReader(w.lock));
    if HandsToWriter(w.lock) {
      HandOffFair(w, w', w.lock.writers[0]);
    }
  }

  /** Handing the lock to the first writer in the queue is fair. */
  lemma HandOffFair(w: World, w': World, u: Tid)
    requires Inv(w) && w.lock.writers != [] && u == w.lock.writers[0]
    requires w.lock.readers == [] || !w.lock.writeLocked
    requires w'.lock.writers == w.lock.writers[1..] && w'.lock.readers == w.lock.readers && w'.lock.writeLocked
    requires w'.log == w.log + [WriterEntered(u, true)]
    ensures Fair(w')
  {
    assert w.lock.writers == [u] + w.lock.writers[1..];
    forall v { LogStep(w.log, WriterEntered(u, true), v); }
  }

  lemma UnlockWriteRoles(w: World, t: Tid)
    requires Inv(w) && Enabled(w, UnlockWrite(t))
    ensures var role := Apply(w, UnlockWrite(t)).role;
            if w.lock.readers != [] then Holding(role) == Elements(w.lock.readers) && Owners(role) == {}
            else Holding(role) == {} && Owners(role) == Elements(WokenByWriter(w.lock))
  {
    SetRole(w.role, t, Idle);
    assert t in Owners(w.role) && t !in Holding(w.role);
    SoleOwner(w, t);
    HandRoles(w.role[t := Idle], WokenByWriter(w.lock));
  }

  lemma UnlockWriteSafe(w: World, t: Tid)
    requires Inv(w) && Enabled(w, UnlockWrite(t))
    ensures Safe(Apply(w, UnlockWrite(t)))
  {
    assert t in Owners(w.role);
    SoleOwner(w, t);
    UnlockWriteRoles(w, t);
    if w.lock.readers != [] {
      DistinctCount(w.lock.readers);
    } else if w.lock.writers != [] {
      assert Elements([w.lock.writers[0]]) == {w.lock.writers[0]};
    } else {
      assert Elements([]) == {};
    }
  }

  lemma UnlockWriteKeeps(w: World, t: Tid)
    requires Inv(w) && Enabled(w, UnlockWrite(t))
    ensures Inv(Apply(w, UnlockWrite(t)))
  {
    var w' := Apply(w, UnlockWrite(t));
    assert t in Owners(w.role);
    SoleOwner(w, t);
    UnlockWriteSafe(w, t);
    LeaveQueues(w, w', t, WokenByWriter(w.lock));
    if w.lock.readers != [] {
      forall v { LogStep(w.log, ReadersAdmitted(w.lock.readers), v); }
    } else if w.lock.writers != [] {
      HandOffFair(w, w', w.lock.writers[0]);
    }
  }

  lemma ResumeKeeps(w: World, t: Tid)
    requires Inv(w) && Enabled(w, Resume(t))
    ensures Inv(Apply(w, Resume(t)))
  {
    var w' := Apply(w, Resume(t));
    SetRole(w.role, t, w'.role[t]);
    if w.role[t] == WriteHanded {
      assert t in Owners(w.role);
      SoleOwner(w, t);
    } else {
      assert t in Holding(w.role);
    }
    assert Owners(w'.role) == Owners(w.role) && Holding(w'.role) == Holding(w.role);
  }

  /** Every step of every thread keeps the lock safe and fair. */
  lemma StepKeepsInv(w: World, s: Step)
    requires Inv(w) && Enabled(w, s)
    ensures Inv(Apply(w, s))
  {
    match s
    case LockRead(t) => LockReadKeeps(w, t);
    case LockWrite(t) => LockWriteKeeps(w, t);
    case UnlockRead(t) => UnlockReadKeeps(w, t);
    case UnlockWrite(t) => UnlockWriteKeeps(w, t);
    case Resume(t) => ResumeKeeps(w, t);
  }

  // ------------------------------------------------------------------- runs

  predicate Possible(w: World, steps: seq<Step>)
    decreases |steps|
  {
    steps == [] || (Enabled(w, steps[0]) && Possible(Apply(w, steps[0]), steps[1..]))
  }

  function After(w: World, steps: seq<Step>): World
    requires Possible(w, steps)
    decreases |steps|
  {
    if steps == [] then w else After(Apply(w, steps[0]), steps[1..])
  }

  lemma {:induction false} RunKeepsInv(w: World, steps: seq<Step>)
    requires Inv(w) && Possible(w, steps)
    ensures Inv(After(w, steps))
    decreases |steps|
  {
    if steps != [] {
      StepKeepsInv(w, steps[0]);
      RunKeepsInv(Apply(w, steps[0]), steps[1..]);
    }
  }

  lemma StartInv(threads: set<Tid>)
    ensures Inv(Start(threads))
  {
    assert Holding(Start(threads).role) == {} && Owners(Start(threads).role) == {};
  }

  /** Mutual exclusion, the reader count, no lost wake-up, and no failing assertion, in every run. */
  lemma AlwaysSafe(threads: set<Tid>, steps: seq<Step>, s: Step)
    requires Possible(Start(threads), steps)
    ensures var w := After(Start(threads), steps);
            && (w.lock.writeLocked ==> Holding(w.role) == {})
            && |Owners(w.role)| <= 1 && (Owners(w.role) != {} <==> w.lock.writeLocked)
            && w.lock.activeReadCount == |Holding(w.role)|
            && (Holding(w.role) + Owners(w.role) == {} ==> w.lock.readers == [] && w.lock.writers == [])
            && (Enabled(w, s) ==> AssertionsHold(w, s))
  {
    StartInv(threads);
    RunKeepsInv(Start(threads), steps);
    var w := After(Start(threads), steps);
    if Enabled(w, s) {
      SafeAssertions(w, s);
    }
  }

  lemma SafeAssertions(w: World, s: Step)
    requires Inv(w) && Enabled(w, s)
    ensures AssertionsHold(w, s)
  {
    match s
    case UnlockRead(t) => assert t in Holding(w.role);
    case UnlockWrite(t) => assert t in Owners(w.role); SoleOwner(w, t);
    case Resume(t) =>
      if w.role[t] == WriteHanded {
        assert t in Owners(w.role);
        SoleOwner(w, t);
      } else {
        assert t in Holding(w.role);
      }
    case _ =>
  }

  /** A waiting reader sees at most one writer enter before it; a waiting writer sees no new
      reader, and at most one more batch of waiting readers than writers; queued writers are
      served in the order in which they came. */
  lemma AlwaysFair(threads: set<Tid>, steps: seq<Step>, t: Tid)
    requires Possible(Start(threads), steps)
    ensures var w := After(Start(threads), steps);
            && (t in w.role && w.role[t] == ReadQueued ==> WritersSince(w.log, t) <= 1)
            && (t in w.role && w.role[t] == WriteQueued ==>
                  NewReadersSince(w.log, t) == 0 && BatchesSince(w.log, t) <= WritersSince(w.log, t) + 1)
            && BatchesAfterWriter(w.log) <= 1
            && QueuedWriters(w.log) == ServedWriters(w.log) + w.lock.writers
            && (forall u :: u in w.lock.writers <==> u in w.role && w.role[u] == WriteQueued)
  {
    StartInv(threads);
    RunKeepsInv(Start(threads), steps);
  }
}

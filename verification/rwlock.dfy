/** The reader/writer lock: its four operations as updates of the lock, and as procedures. */
module RwLock {
  type Tid = nat

  datatype Lock = Lock(writeLocked: bool, activeReadCount: int, readers: seq<Tid>, writers: seq<Tid>)

  const UNLOCKED := Lock(false, 0, [], [])

  /** The lock after each operation. A thread that has to wait is put at the end of a list. */
  predicate ReaderWaits(l: Lock) {
    l.writers != [] || l.writeLocked
  }

  function EnterRead(l: Lock, t: Tid): Lock {
    if ReaderWaits(l) then l.(readers := l.readers + [t]) else l.(activeReadCount := l.activeReadCount + 1)
  }

  predicate HandsToWriter(l: Lock) {
    l.activeReadCount == 1 && l.writers != []
  }

  function LeaveRead(l: Lock): Lock {
    if HandsToWriter(l) then l.(activeReadCount := 0, writeLocked := true, writers := l.writers[1..])
    else l.(activeReadCount := l.activeReadCount - 1)
  }

  predicate WriterWaits(l: Lock) {
    l.activeReadCount > 0 || l.writeLocked
  }

  function EnterWrite(l: Lock, t: Tid): Lock {
    if WriterWaits(l) then l.(writers := l.writers + [t]) else l.(writeLocked := true)
  }

  function LeaveWrite(l: Lock): Lock {
    if l.readers != [] then
      l.(readers := [], activeReadCount := l.activeReadCount + |l.readers|, writeLocked := false)
    else if l.writers != [] then l.(writers := l.writers[1..])
    else l.(writeLocked := false)
  }

  /** The threads that leaving makes ready. */
  function WokenByReader(l: Lock): seq<Tid> {
    if HandsToWriter(l) then [l.writers[0]] else []
  }

  function WokenByWriter(l: Lock): seq<Tid> {
    if l.readers != [] then l.readers else if l.writers != [] then [l.writers[0]] else []
  }

  class RwLockObject {
    var writeLocked: bool
    var activeReadCount: int
    var readerWaitList: seq<Tid>
    var writerWaitList: seq<Tid>

    ghost function State(): Lock
      reads this
    {
      Lock(writeLocked, activeReadCount, readerWaitList, writerWaitList)
    }

    constructor ()
      ensures State() == UNLOCKED
    {
      writeLocked, activeReadCount, readerWaitList, writerWaitList := false, 0, [], [];
    }

    method LockRead(t: Tid) returns (waits: bool)
      modifies this
      ensures State() == EnterRead(old(State()), t) && waits == ReaderWaits(old(State()))
      ensures !waits ==> !writeLocked
    {
      waits := writerWaitList != [] || writeLocked;
      if waits {
        readerWaitList := readerWaitList + [t];
      } else {
        activeReadCount := activeReadCount + 1;
      }
    }

    method UnlockRead() returns (ready: seq<Tid>)
      modifies this
      ensures State() == LeaveRead(old(State())) && ready == WokenByReader(old(State()))
    {
      ready := [];
      activeReadCount := activeReadCount - 1;
      if activeReadCount == 0 && writerWaitList != [] {
        writeLocked := true;
        ready := [writerWaitList[0]];
        writerWaitList := writerWaitList[1..];
      }
    }

    method LockWrite(t: Tid) returns (waits: bool)
      modifies this
      ensures State() == EnterWrite(old(State()), t) && waits == WriterWaits(old(State()))
    {
      waits := activeReadCount > 0 || writeLocked;
      if waits {
        writerWaitList := writerWaitList + [t];
      } else {
        writeLocked := true;
      }
    }

    method UnlockWrite() returns (ready: seq<Tid>)
      modifies this
      ensures State() == LeaveWrite(old(State())) && ready == WokenByWriter(old(State()))
    {
      ready := [];
      if readerWaitList != [] {
        while readerWaitList != []
          invariant ready + readerWaitList == old(readerWaitList)
          invariant activeReadCount + |readerWaitList| == old(activeReadCount) + |old(readerWaitList)|
          invariant writerWaitList == old(writerWaitList)
          decreases |readerWaitList|
        {
          ready := ready + [readerWaitList[0]];
          readerWaitList := readerWaitList[1..];
          activeReadCount := activeReadCount + 1;
        }
        writeLocked := false;
      } else if writerWaitList != [] {
        ready := [writerWaitList[0]];
        writerWaitList := writerWaitList[1..];
      } else {
        writeLocked := false;
      }
    }
  }
}

/**
 * `AsyncReadWriteLock` as a state machine. A caller that cannot enter at once is queued
 * as a waiter token; leaving the lock hands it to the front writer, or else to every
 * queued reader at once. Resuming the waiting tasks is not modelled.
 */
module ReadWriteLock {
  import opened Wrappers

  /** A waiter: stands for the completion source a blocked caller awaits. */
  type Token = nat

  datatype LockState = LockState(readWaiters: seq<Token>, writeWaiters: seq<Token>, writerActive: bool, readerCount: int)

  /**
   * The lock's invariant under correct use: a writer excludes readers, a queued writer
   * always has someone inside who will hand the lock on, and so does a queued reader.
   */
  predicate Inv(s: LockState) {
    && s.readerCount >= 0
    && (s.writerActive ==> s.readerCount == 0)
    && (|s.writeWaiters| > 0 ==> s.writerActive || s.readerCount > 0)
    && (|s.readWaiters| > 0 ==> s.writerActive || |s.writeWaiters| > 0)
  }

  const Idle := LockState([], [], false, 0)

  /** `EnterReadLockAsync`: in at once, or queued behind the writers. */
  function EnterRead(s: LockState, t: Token): (LockState, bool) {
    if !s.writerActive && |s.writeWaiters| == 0 then (s.(readerCount := s.readerCount + 1), true)
    else (s.(readWaiters := s.readWaiters + [t]), false)
  }

  /** `ExitReadLock`: the last reader out hands the lock to the front writer. */
  function ExitRead(s: LockState): (LockState, Option<Token>) {
    var s' := s.(readerCount := s.readerCount - 1);
    if s'.readerCount == 0 && |s.writeWaiters| > 0 then
      (s'.(writeWaiters := s.writeWaiters[1..], writerActive := true), Some(s.writeWaiters[0]))
    else (s', None)
  }

  /** `EnterWriteLockAsync`: in at once when the lock is free, or queued. */
  function EnterWrite(s: LockState, t: Token): (LockState, bool) {
    if !s.writerActive && s.readerCount == 0 then (s.(writerActive := true), true)
    else (s.(writeWaiters := s.writeWaiters + [t]), false)
  }

  /** `ExitWriteLock`: the front writer next, else every queued reader, else idle. */
  function ExitWrite(s: LockState): (LockState, Option<Token>, seq<Token>) {
    if |s.writeWaiters| > 0 then (s.(writeWaiters := s.writeWaiters[1..], writerActive := true), Some(s.writeWaiters[0]), [])
    else if |s.readWaiters| > 0 then (s.(readWaiters := [], writerActive := false, readerCount := |s.readWaiters|), None, s.readWaiters)
    else (s.(writerActive := false), None, [])
  }

  lemma IdleInv()
    ensures Inv(Idle)
  {
  }

  /** Entering for reading keeps the invariant; a reader waits whenever a writer is queued. */
  lemma EnterReadInv(s: LockState, t: Token)
    requires Inv(s)
    ensures var (s', granted) := EnterRead(s, t);
            && Inv(s')
            && (granted <==> !s.writerActive && |s.writeWaiters| == 0)
            && (granted ==> s'.readerCount == s.readerCount + 1 && s'.readWaiters == s.readWaiters)
            && (!granted ==> s'.readWaiters == s.readWaiters + [t] && s'.readerCount == s.readerCount)
            && s'.writeWaiters == s.writeWaiters && s'.writerActive == s.writerActive
  {
  }

  /** Entering for writing keeps the invariant and queues writers in arrival order. */
  lemma EnterWriteInv(s: LockState, t: Token)
    requires Inv(s)
    ensures var (s', granted) := EnterWrite(s, t);
            && Inv(s')
            && (granted <==> !s.writerActive && s.readerCount == 0)
            && (granted ==> s'.writerActive && s'.writeWaiters == s.writeWaiters)
            && (!granted ==> s'.writeWaiters == s.writeWaiters + [t] && s'.writerActive == s.writerActive)
            && s'.readerCount == s.readerCount && s'.readWaiters == s.readWaiters
  {
  }

  /**
   * A reader leaving keeps the invariant; the last one out wakes exactly the front
   * writer, and only when one is queued.
   */
  lemma ExitReadInv(s: LockState)
    requires Inv(s) && s.readerCount > 0
    ensures var (s', next) := ExitRead(s);
            && Inv(s')
            && s'.readerCount == s.readerCount - 1
            && (next.Some? <==> s.readerCount == 1 && |s.writeWaiters| > 0)
            && (next.Some? ==> next.value == s.writeWaiters[0] && s'.writeWaiters == s.writeWaiters[1..] && s'.writerActive)
            && (next.None? ==> s'.writeWaiters == s.writeWaiters && !s'.writerActive)
            && s'.readWaiters == s.readWaiters
  {
  }

  /**
   * The writer leaving keeps the invariant: the front writer goes next when there is one;
   * otherwise every queued reader is let in at once, in queue order.
   */
  lemma ExitWriteInv(s: LockState)
    requires Inv(s) && s.writerActive
    ensures var (s', next, readers) := ExitWrite(s);
            && Inv(s')
            && (|s.writeWaiters| > 0 ==> next == Some(s.writeWaiters[0]) && readers == []
                                         && s'.writeWaiters == s.writeWaiters[1..] && s'.writerActive
                                         && s'.readWaiters == s.readWaiters)
            && (|s.writeWaiters| == 0 ==> next == None && readers == s.readWaiters && s'.readWaiters == []
                                          && !s'.writerActive && s'.readerCount == |s.readWaiters|)
  {
  }

  /** Nobody is left queued behind an idle lock. */
  lemma NoStranding(s: LockState)
    requires Inv(s) && !s.writerActive && s.readerCount == 0
    ensures s.readWaiters == [] && s.writeWaiters == []
  {
  }

  // ---------------------------------------------------------------------------
  // Runs of calls

  datatype Op = ReadIn(t: Token) | ReadOut | WriteIn(t: Token) | WriteOut

  /** Correct use: only a reader inside leaves for reading, only the writer for writing. */
  predicate Legal(s: LockState, op: Op) {
    match op
    case ReadOut => s.readerCount > 0
    case WriteOut => s.writerActive
    case _ => true
  }

  function Apply(s: LockState, op: Op): LockState {
    match op
    case ReadIn(t) => EnterRead(s, t).0
    case ReadOut => ExitRead(s).0
    case WriteIn(t) => EnterWrite(s, t).0
    case WriteOut => ExitWrite(s).0
  }

  /** The writers a call takes off the queue and lets in. */
  function Woken(s: LockState, op: Op): seq<Token> {
    match op
    case ReadOut => (var next := ExitRead(s).1; if next.Some? then [next.value] else [])
    case WriteOut => (var next := ExitWrite(s).1; if next.Some? then [next.value] else [])
    case _ => []
  }

  /** The writers a call puts on the queue. */
  function Queued(s: LockState, op: Op): seq<Token> {
    match op
    case WriteIn(t) => if EnterWrite(s, t).1 then [] else [t]
    case _ => []
  }

  function Run(s: LockState, ops: seq<Op>): LockState {
    if ops == [] then s else Apply(Run(s, ops[..|ops| - 1]), ops[|ops| - 1])
  }

  predicate LegalRun(s: LockState, ops: seq<Op>) {
    ops == [] || (LegalRun(s, ops[..|ops| - 1]) && Legal(Run(s, ops[..|ops| - 1]), ops[|ops| - 1]))
  }

  function RunWoken(s: LockState, ops: seq<Op>): seq<Token> {
    if ops == [] then [] else RunWoken(s, ops[..|ops| - 1]) + Woken(Run(s, ops[..|ops| - 1]), ops[|ops| - 1])
  }

  function RunQueued(s: LockState, ops: seq<Op>): seq<Token> {
    if ops == [] then [] else RunQueued(s, ops[..|ops| - 1]) + Queued(Run(s, ops[..|ops| - 1]), ops[|ops| - 1])
  }

  /** One call moves writers through the queue: what was queued or joins leaves, or stays, in order. */
  lemma StepFifo(s: LockState, op: Op)
    ensures s.writeWaiters + Queued(s, op) == Woken(s, op) + Apply(s, op).writeWaiters
  {
    match op
    case ReadIn(t) =>
    case ReadOut =>
      if ExitRead(s).1.Some? {
        assert s.writeWaiters == [s.writeWaiters[0]] + s.writeWaiters[1..];
      }
    case WriteIn(t) =>
    case WriteOut =>
      if |s.writeWaiters| > 0 {
        assert s.writeWaiters == [s.writeWaiters[0]] + s.writeWaiters[1..];
      }
  }

  /** Every correct run keeps the invariant. */
  lemma {:induction false} RunInv(s: LockState, ops: seq<Op>)
    requires Inv(s) && LegalRun(s, ops)
    ensures Inv(Run(s, ops))
  {
    if ops != [] {
      var init, op := ops[..|ops| - 1], ops[|ops| - 1];
      RunInv(s, init);
      var m := Run(s, init);
      match op
      case ReadIn(t) => EnterReadInv(m, t);
      case ReadOut => ExitReadInv(m);
      case WriteIn(t) => EnterWriteInv(m, t);
      case WriteOut => ExitWriteInv(m);
    }
  }

  /**
   * Writers are let in first come, first served: over any run, the writers let in from
   * the queue, followed by those still queued, are the writers queued at the start
   * followed by those that joined, in the same order.
   */
  lemma {:induction false} RunFifo(s: LockState, ops: seq<Op>)
    ensures s.writeWaiters + RunQueued(s, ops) == RunWoken(s, ops) + Run(s, ops).writeWaiters
  {
    if ops != [] {
      var init, op := ops[..|ops| - 1], ops[|ops| - 1];
      RunFifo(s, init);
      var m := Run(s, init);
      StepFifo(m, op);
      Regroup(s.writeWaiters, RunQueued(s, init), RunWoken(s, init), m.writeWaiters,
              Queued(m, op), Woken(m, op), Run(s, ops).writeWaiters);
    }
  }

  lemma Regroup<T>(a: seq<T>, q: seq<T>, w: seq<T>, m: seq<T>, x: seq<T>, y: seq<T>, e: seq<T>)
    requires a + q == w + m && m + x == y + e
    ensures a + (q + x) == (w + y) + e
  {
    calc {
      a + (q + x);
      (a + q) + x;
      (w + m) + x;
      w + (m + x);
      w + (y + e);
    }
  }

  class AsyncReadWriteLock {
    var readWaiters: seq<Token>
    var writeWaiters: seq<Token>
    var isWriterActive: bool
    var readerCount: int

    function State(): LockState
      reads this
    {
      LockState(readWaiters, writeWaiters, isWriterActive, readerCount)
    }

    constructor ()
      ensures State() == Idle
    {
      readWaiters := [];
      writeWaiters := [];
      isWriterActive := false;
      readerCount := 0;
    }

    /** Returns whether the caller is in at once; otherwise `t` waits in the read queue. */
    method EnterReadLock(t: Token) returns (granted: bool)
      modifies this
      ensures (State(), granted) == EnterRead(old(State()), t)
    {
      if !isWriterActive && |writeWaiters| == 0 {
        readerCount := readerCount + 1;
        return true;
      }
      readWaiters := readWaiters + [t];
      return false;
    }

    /** Returns the writer to wake, if any. */
    method ExitReadLock() returns (nextWriter: Option<Token>)
      modifies this
      ensures (State(), nextWriter) == ExitRead(old(State()))
    {
      nextWriter := None;
      readerCount := readerCount - 1;
      if readerCount == 0 && |writeWaiters| > 0 {
        nextWriter := Some(writeWaiters[0]);
        writeWaiters := writeWaiters[1..];
        isWriterActive := true;
      }
    }

    /** Returns whether the caller is in at once; otherwise `t` waits in the write queue. */
    method EnterWriteLock(t: Token) returns (granted: bool)
      modifies this
      ensures (State(), granted) == EnterWrite(old(State()), t)
    {
      if !isWriterActive && readerCount == 0 {
        isWriterActive := true;
        return true;
      }
      writeWaiters := writeWaiters + [t];
      return false;
    }

    /** Returns the writer to wake or the readers to wake, in queue order. */
    method ExitWriteLock() returns (nextWriter: Option<Token>, readyReaders: seq<Token>)
      modifies this
      ensures (State(), nextWriter, readyReaders) == ExitWrite(old(State()))
    {
      readyReaders := [];
      nextWriter := None;
      isWriterActive := false;
      if |writeWaiters| > 0 {
        nextWriter := Some(writeWaiters[0]);
        writeWaiters := writeWaiters[1..];
        isWriterActive := true;
      } else if |readWaiters| > 0 {
        ghost var waiting := readWaiters;
        while |readWaiters| > 0
          invariant readyReaders + readWaiters == waiting
          invariant writeWaiters == old(writeWaiters) && !isWriterActive && readerCount == old(readerCount)
          decreases |readWaiters|
        {
          MoveHead(readyReaders, readWaiters);
          readyReaders := readyReaders + [readWaiters[0]];
          readWaiters := readWaiters[1..];
        }
        assert readyReaders + [] == readyReaders;
        readerCount := |readyReaders|;
      }
    }
  }

  /** Moving the head of `b` to the end of `a` keeps the concatenation. */
  lemma MoveHead<T>(a: seq<T>, b: seq<T>)
    requires |b| > 0
    ensures a + [b[0]] + b[1..] == a + b
  {
    assert b == [b[0]] + b[1..];
  }
}

/**
 The reader/writer lock of readerWriter.cpp (repeated as static functions in FileSupervisor.cpp),
 as micro-steps of any number of threads over any number of locks.

 Each lock is one mutex, one condition variable and one reader counter.  A writer keeps the mutex for its
 whole section; a reader holds it only while changing the counter.  The mutex and condition variable behave
 as pthread_mutex_lock, pthread_cond_wait and pthread_cond_signal of IEEE Std 1003.1-2017 (System Interfaces,
 section 3): waiting releases the mutex and parks in one step, a signal unblocks at least one parked thread
 when there is one, and a parked thread may wake up spuriously.
 */
module LockProtocol {

  import opened Options

  type Tid = nat
  type LockId = nat

  /** A section a thread is in.  Reads of one lock may nest. */
  datatype Section = Rd(lock: LockId) | Wr(lock: LockId)

  /** The calls a thread makes.  ReturnFail leaves a read section without calling rwlock_end_read. */
  datatype Op =
    | StartRead(lock: LockId)
    | EndRead(lock: LockId)
    | StartWrite(lock: LockId)
    | EndWrite(lock: LockId)
    | ReturnFail(lock: LockId)

  /** Where a thread stands inside one of the four lock functions. */
  datatype Pc =
    | ReadLocked    // start_read: mutex taken, counter not yet incremented
    | ReadCounted   // start_read: about to unlock
    | EndLocked     // end_read: mutex taken, counter not yet decremented
    | EndCounted    // end_read: about to test for zero
    | EndZero       // end_read: saw zero, about to signal
    | EndUnlock     // end_read: about to unlock
    | WriteTest     // start_write: about to test the loop condition
    | WriteWait     // start_write: saw readers, about to wait
    | Parked        // start_write: blocked on the condition variable
    | Woken         // start_write: unblocked, must take the mutex again
    | WriteEnded    // end_write: signalled, about to unlock

  datatype Phase = Ready | At(pc: Pc, lock: LockId)

  datatype Thread = Thread(phase: Phase, stack: seq<Section>, prog: seq<Op>)

  /** leaked counts the read sections that were left by ReturnFail. */
  datatype Lock = Lock(owner: Option<Tid>, readers: int, leaked: nat)

  datatype State = State(locks: seq<Lock>, threads: seq<Thread>)

  datatype Action =
    | Run(t: Tid, wake: set<Tid>)  // wake: the threads unblocked if the step signals
    | Spurious(t: Tid)             // a parked thread wakes up without a signal

  // ---------------------------------------------------------------- one thread and one lock

  predicate Finished(th: Thread) {
    th.phase.Ready? && th.prog == []
  }

  /** The lock a thread's next step works on. */
  function Target(th: Thread): LockId
    requires !Finished(th)
  {
    if th.phase.At? then th.phase.lock else th.prog[0].lock
  }

  predicate NeedsMutex(th: Thread)
    requires !Finished(th)
  {
    if th.phase.Ready? then th.prog[0].StartRead? || th.prog[0].EndRead? || th.prog[0].StartWrite?
    else th.phase.pc.Woken?
  }

  predicate CanAdvance(th: Thread, lk: Lock) {
    && !Finished(th)
    && !(th.phase.At? && th.phase.pc.Parked?)
    && (NeedsMutex(th) ==> lk.owner.None?)
  }

  /** The steps that call pthread_cond_signal. */
  predicate Signals(th: Thread)
    requires !Finished(th)
  {
    if th.phase.Ready? then th.prog[0].EndWrite? else th.phase.pc.EndZero?
  }

  function Pop(stack: seq<Section>): seq<Section> {
    if stack == [] then [] else stack[..|stack| - 1]
  }

  /** One micro-step of thread me, on the lock it works on. */
  function Advance(th: Thread, lk: Lock, me: Tid): (Thread, Lock)
    requires CanAdvance(th, lk)
  {
    match th.phase
    case Ready =>
      var rest := th.prog[1..];
      var l := th.prog[0].lock;
      (match th.prog[0]
       case StartRead(_) => (Thread(At(ReadLocked, l), th.stack, rest), lk.(owner := Some(me)))
       case EndRead(_) => (Thread(At(EndLocked, l), th.stack, rest), lk.(owner := Some(me)))
       case StartWrite(_) => (Thread(At(WriteTest, l), th.stack, rest), lk.(owner := Some(me)))
       case EndWrite(_) => (Thread(At(WriteEnded, l), Pop(th.stack), rest), lk)
       case ReturnFail(_) => (Thread(Ready, Pop(th.stack), rest), lk.(leaked := lk.leaked + 1)))
    case At(pc, l) =>
      (match pc
       case ReadLocked => (Thread(At(ReadCounted, l), th.stack + [Rd(l)], th.prog), lk.(readers := lk.readers + 1))
       case ReadCounted => (th.(phase := Ready), lk.(owner := None))
       case EndLocked => (Thread(At(EndCounted, l), Pop(th.stack), th.prog), lk.(readers := lk.readers - 1))
       case EndCounted => (th.(phase := At(if lk.readers == 0 then EndZero else EndUnlock, l)), lk)
       case EndZero => (th.(phase := At(EndUnlock, l)), lk)
       case EndUnlock => (th.(phase := Ready), lk.(owner := None))
       case WriteTest =>
         if lk.readers > 0 then (th.(phase := At(WriteWait, l)), lk)
         else (Thread(Ready, th.stack + [Wr(l)], th.prog), lk)
       case WriteWait => (th.(phase := At(Parked, l)), lk.(owner := None))
       case Woken => (th.(phase := At(WriteTest, l)), lk.(owner := Some(me)))
       case WriteEnded => (th.(phase := Ready), lk.(owner := None)))
  }

  // ---------------------------------------------------------------- the whole system

  function ParkedOn(s: State, l: LockId): set<Tid> {
    set t | 0 <= t < |s.threads| && s.threads[t].phase == At(Parked, l)
  }

  predicate Enabled(s: State, a: Action) {
    a.t < |s.threads| &&
    var th := s.threads[a.t];
    match a
    case Spurious(_) => th.phase.At? && th.phase.pc.Parked?
    case Run(_, wake) =>
      && !Finished(th)
      && Target(th) < |s.locks|
      && CanAdvance(th, s.locks[Target(th)])
      && (if Signals(th)
          then wake <= ParkedOn(s, Target(th)) && (ParkedOn(s, Target(th)) != {} ==> wake != {})
          else wake == {})
  }

  function WakeUp(th: Thread): Thread {
    if th.phase.At? then th.(phase := At(Woken, th.phase.lock)) else th
  }

  function Do(s: State, a: Action): State
    requires Enabled(s, a)
  {
    match a
    case Spurious(t) => s.(threads := s.threads[t := WakeUp(s.threads[t])])
    case Run(t, wake) =>
      var l := Target(s.threads[t]);
      var (th, lk) := Advance(s.threads[t], s.locks[l], t);
      State(s.locks[l := lk],
            seq(|s.threads|, i requires 0 <= i < |s.threads| =>
              if i == t then th else if i in wake then WakeUp(s.threads[i]) else s.threads[i]))
  }

  /** acts can be taken one after the other from s. */
  predicate IsRun(s: State, acts: seq<Action>)
    decreases |acts|
  {
    acts == [] || (Enabled(s, acts[0]) && IsRun(Do(s, acts[0]), acts[1..]))
  }

  function After(s: State, acts: seq<Action>): State
    requires IsRun(s, acts)
    decreases |acts|
  {
    if acts == [] then s else After(Do(s, acts[0]), acts[1..])
  }

  // ---------------------------------------------------------------- clients

  /** Sections are closed in the opposite order of their opening, and all of them are closed in the end. */
  predicate Bracketed(stack: seq<Section>, prog: seq<Op>)
    decreases |prog|
  {
    if prog == [] then stack == []
    else
      var l := prog[0].lock;
      match prog[0]
      case StartRead(_) => Bracketed(stack + [Rd(l)], prog[1..])
      case StartWrite(_) => Bracketed(stack + [Wr(l)], prog[1..])
      case EndWrite(_) => stack != [] && stack[|stack| - 1] == Wr(l) && Bracketed(Pop(stack), prog[1..])
      case EndRead(_) => stack != [] && stack[|stack| - 1] == Rd(l) && Bracketed(Pop(stack), prog[1..])
      case ReturnFail(_) => stack != [] && stack[|stack| - 1] == Rd(l) && Bracketed(Pop(stack), prog[1..])
  }

  predicate LocksBelow(prog: seq<Op>, n: nat) {
    forall i :: 0 <= i < |prog| ==> prog[i].lock < n
  }

  const FREE_LOCK := Lock(None, 0, 0)

  predicate Init(s: State) {
    && (forall l :: 0 <= l < |s.locks| ==> s.locks[l] == FREE_LOCK)
    && (forall t :: 0 <= t < |s.threads| ==>
          s.threads[t].phase.Ready? && s.threads[t].stack == []
          && Bracketed([], s.threads[t].prog) && LocksBelow(s.threads[t].prog, |s.locks|))
  }

  // ---------------------------------------------------------------- the inductive invariant

  predicate Holds(th: Thread, l: LockId) {
    || Wr(l) in th.stack
    || (th.phase.At? && th.phase.lock == l && !th.phase.pc.Parked? && !th.phase.pc.Woken?)
  }

  /** What is left of a thread's program fits the sections it is in. */
  predicate ThreadOk(th: Thread, n: nat) {
    && LocksBelow(th.prog, n)
    && (match th.phase
        case Ready => Bracketed(th.stack, th.prog)
        case At(pc, l) =>
          && l < n
          && Wr(l) !in th.stack
          && (match pc
              case ReadLocked => Bracketed(th.stack + [Rd(l)], th.prog)
              case EndLocked => th.stack != [] && th.stack[|th.stack| - 1] == Rd(l) && Bracketed(Pop(th.stack), th.prog)
              case WriteTest => Bracketed(th.stack + [Wr(l)], th.prog)
              case WriteWait => Bracketed(th.stack + [Wr(l)], th.prog)
              case Parked => Bracketed(th.stack + [Wr(l)], th.prog)
              case Woken => Bracketed(th.stack + [Wr(l)], th.prog)
              case _ => Bracketed(th.stack, th.prog)))
    && SingleWrites(th.stack)
  }

  /** No write section is open twice. */
  predicate SingleWrites(stack: seq<Section>) {
    forall i, j :: 0 <= i < j < |stack| && stack[i].Wr? ==> stack[j] != stack[i]
  }

  predicate ThreadsOk(s: State) {
    forall t :: 0 <= t < |s.threads| ==> ThreadOk(s.threads[t], |s.locks|)
  }

  /** The mutex of a lock is owned by exactly the thread that is at a point where it holds it. */
  predicate Ownership(s: State) {
    && (forall l :: 0 <= l < |s.locks| && s.locks[l].owner.Some? ==> s.locks[l].owner.value < |s.threads|)
    && (forall l, t :: 0 <= l < |s.locks| && 0 <= t < |s.threads| ==>
          (s.locks[l].owner == Some(t) <==> Holds(s.threads[t], l)))
  }

  /** How often a thread is inside a read section of l. */
  function Depth(stack: seq<Section>, l: LockId): nat {
    if stack == [] then 0
    else Depth(stack[..|stack| - 1], l) + (if stack[|stack| - 1] == Rd(l) then 1 else 0)
  }

  function DepthOf(l: LockId): Thread -> int {
    (th: Thread) => Depth(th.stack, l)
  }

  function Total(threads: seq<Thread>, f: Thread -> int): int {
    if threads == [] then 0 else Total(threads[..|threads| - 1], f) + f(threads[|threads| - 1])
  }

  predicate Counting(s: State) {
    forall l :: 0 <= l < |s.locks| ==> s.locks[l].readers == Total(s.threads, DepthOf(l)) + s.locks[l].leaked
  }

  /** What a thread that holds the mutex of l still knows about the counter of l. */
  predicate Knows(th: Thread, l: LockId, readers: int) {
    && (Wr(l) in th.stack ==> readers == 0)
    && (th.phase == At(EndZero, l) ==> readers == 0)
    && (th.phase == At(WriteWait, l) ==> readers > 0)
  }

  predicate Knowledge(s: State) {
    forall l, t :: 0 <= l < |s.locks| && 0 <= t < |s.threads| ==> Knows(s.threads[t], l, s.locks[l].readers)
  }

  /** A thread that is in the write section of l, is about to enter it, or is about to signal. */
  predicate Rescuer(th: Thread, l: LockId) {
    || Wr(l) in th.stack
    || th.phase == At(Woken, l) || th.phase == At(WriteTest, l)
    || th.phase == At(EndCounted, l) || th.phase == At(EndZero, l)
  }

  /** A parked writer will be woken: a reader is in, or another thread is on its way to signal. */
  predicate NoLostWake(s: State, l: LockId)
    requires l < |s.locks|
  {
    ParkedOn(s, l) != {} ==>
      s.locks[l].readers > 0 || exists t :: 0 <= t < |s.threads| && Rescuer(s.threads[t], l)
  }

  predicate Inv(s: State) {
    && ThreadsOk(s)
    && Ownership(s)
    && Counting(s)
    && Knowledge(s)
    && (forall l :: 0 <= l < |s.locks| ==> NoLostWake(s, l))
  }
}

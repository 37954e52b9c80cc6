/** Progress of the lock protocol: every run is finite, and runs of ordered clients end with all threads done. */
module LockLiveness {

  import opened Options
  import opened LockProtocol
  import opened LockSafety
  import opened LockTheorems

  // ---------------------------------------------------------------- termination

  /** Steps an operation can cause among n threads; a signal pays 3 for each waiter that wakes and parks again. */
  function OpCost(op: Op, n: nat): nat {
    match op
    case StartRead(_) => 3
    case EndRead(_) => 3 * n + 5
    case StartWrite(_) => 4
    case EndWrite(_) => 3 * n + 2
    case ReturnFail(_) => 1
  }

  function PhaseCost(phase: Phase, n: nat): nat {
    match phase
    case Ready => 0
    case At(pc, _) =>
      match pc
      case ReadLocked => 2
      case ReadCounted => 1
      case EndLocked => 3 * n + 4
      case EndCounted => 3 * n + 3
      case EndZero => 3 * n + 2
      case EndUnlock => 1
      case WriteTest => 3
      case WriteWait => 2
      case Parked => 1
      case Woken => 4
      case WriteEnded => 1
  }

  function ProgCost(prog: seq<Op>, n: nat): nat {
    if prog == [] then 0 else OpCost(prog[0], n) + ProgCost(prog[1..], n)
  }

  function CostOf(n: nat): Thread -> int {
    (th: Thread) => PhaseCost(th.phase, n) + ProgCost(th.prog, n)
  }

  /** What is left to do in a state. */
  function Budget(s: State): int {
    Total(s.threads, CostOf(|s.threads|))
  }

  function SpuriousSteps(acts: seq<Action>): nat {
    if acts == [] then 0 else (if acts[0].Spurious? then 1 else 0) + SpuriousSteps(acts[1..])
  }

  lemma {:induction false} TotalGrowth(ts: seq<Thread>, us: seq<Thread>, k: nat, f: Thread -> int)
    requires |ts| == |us|
    requires forall i :: 0 <= i < |ts| && i != k ==> f(us[i]) <= f(ts[i]) + 3
    ensures k < |ts| ==> Total(us, f) <= Total(ts, f) - f(ts[k]) + f(us[k]) + 3 * (|ts| - 1)
    ensures k >= |ts| ==> Total(us, f) <= Total(ts, f) + 3 * |ts|
  {
    if ts != [] {
      TotalGrowth(ts[..|ts| - 1], us[..|ts| - 1], k, f);
    }
  }

  lemma AdvanceCost(th: Thread, lk: Lock, me: Tid, n: nat)
    requires CanAdvance(th, lk)
    ensures CostOf(n)(Advance(th, lk, me).0) <= CostOf(n)(th) - 1 - (if Signals(th) then 3 * n else 0)
  {
  }

  lemma StepBudget(s: State, a: Action)
    requires Enabled(s, a)
    ensures |Do(s, a).threads| == |s.threads|
    ensures Budget(Do(s, a)) <= Budget(s) - 1 + (if a.Spurious? then 4 else 0)
  {
    var f := CostOf(|s.threads|);
    if a.Run? {
      AdvanceCost(s.threads[a.t], s.locks[Target(s.threads[a.t])], a.t, |s.threads|);
    }
    if a.Run? && Signals(s.threads[a.t]) {
      TotalGrowth(s.threads, Do(s, a).threads, a.t, f);
    } else {
      TotalChange(s.threads, Do(s, a).threads, a.t, f);
    }
  }

  /**
   No run is longer than the budget of its first state plus four steps for each spurious wake-up: for finite
   programs, only endless spurious wake-ups can keep a run going.
   */
  lemma {:induction false} RunsAreFinite(s: State, acts: seq<Action>)
    requires IsRun(s, acts)
    ensures |acts| <= Budget(s) + 4 * SpuriousSteps(acts)
    decreases |acts|
  {
    if acts == [] {
      forall i | 0 <= i < |s.threads| ensures 0 <= CostOf(|s.threads|)(s.threads[i]) {
      }
      TotalNonNegative(s.threads, CostOf(|s.threads|));
    } else {
      StepBudget(s, acts[0]);
      RunsAreFinite(Do(s, acts[0]), acts[1..]);
    }
  }

  // ---------------------------------------------------------------- locking twice

  /** Running prog inside these sections comes to a lock call for l inside the thread's own write section of l. */
  predicate Relocks(stack: seq<Section>, prog: seq<Op>, l: LockId)
    decreases |prog|
  {
    prog != [] &&
    match prog[0]
    case StartRead(k) => (k == l && Wr(l) in stack) || Relocks(stack + [Rd(k)], prog[1..], l)
    case StartWrite(k) => (k == l && Wr(l) in stack) || Relocks(stack + [Wr(k)], prog[1..], l)
    case _ => Relocks(Pop(stack), prog[1..], l)
  }

  /** The sections a thread is in once its current lock call has returned. */
  function Settled(th: Thread): seq<Section> {
    match th.phase
    case Ready => th.stack
    case At(pc, l) =>
      match pc
      case ReadLocked => th.stack + [Rd(l)]
      case EndLocked => Pop(th.stack)
      case WriteTest => th.stack + [Wr(l)]
      case WriteWait => th.stack + [Wr(l)]
      case Parked => th.stack + [Wr(l)]
      case Woken => th.stack + [Wr(l)]
      case _ => th.stack
  }

  predicate WillRelock(th: Thread, l: LockId) {
    Relocks(Settled(th), th.prog, l)
  }

  ghost predicate NeverRelocks(s: State) {
    forall t, l :: 0 <= t < |s.threads| ==> !WillRelock(s.threads[t], l)
  }

  /** Nothing changes until the lock call has returned. */
  lemma AdvanceSettled(th: Thread, lk: Lock, me: Tid)
    requires CanAdvance(th, lk) && th.phase.At?
    ensures Settled(Advance(th, lk, me).0) == Settled(th) && Advance(th, lk, me).0.prog == th.prog
  {
  }

  lemma {:induction false} AdvanceRelocks(th: Thread, lk: Lock, me: Tid, l: LockId)
    requires CanAdvance(th, lk) && (NeedsMutex(th) ==> !Holds(th, Target(th)))
    ensures WillRelock(Advance(th, lk, me).0, l) <==> WillRelock(th, l)
  {
    if th.phase.At? {
      AdvanceSettled(th, lk, me);
    }
  }

  lemma StepRelocks(s: State, a: Action, t: Tid, l: LockId)
    requires Inv(s) && Enabled(s, a) && t < |s.threads|
    ensures WillRelock(Do(s, a).threads[t], l) <==> WillRelock(s.threads[t], l)
  {
    if a.Run? && a.t == t {
      FreeToTake(s, t);
      AdvanceRelocks(s.threads[t], s.locks[Target(s.threads[t])], t, l);
    }
  }

  /** A thread that takes a mutex does not hold it yet. */
  lemma FreeToTake(s: State, t: Tid)
    requires Inv(s) && t < |s.threads| && !Finished(s.threads[t]) && Target(s.threads[t]) < |s.locks|
    requires CanAdvance(s.threads[t], s.locks[Target(s.threads[t])])
    ensures NeedsMutex(s.threads[t]) ==> !Holds(s.threads[t], Target(s.threads[t]))
  {
    var l := Target(s.threads[t]);
    assert s.locks[l].owner == Some(t) <==> Holds(s.threads[t], l);
  }

  /**
   No run brings a thread past a lock call inside its own write section of that lock, so a thread with such a
   call ahead never finishes, and a thread that is blocked by one had it in its program from the start.
   */
  lemma {:induction false} RelockingNeverFinishes(s: State, acts: seq<Action>, t: Tid, l: LockId)
    requires Inv(s) && IsRun(s, acts) && t < |s.threads|
    ensures |After(s, acts).threads| == |s.threads|
    ensures WillRelock(s.threads[t], l) ==> !Finished(After(s, acts).threads[t])
    ensures SelfBlocked(After(s, acts).threads[t], l) ==> WillRelock(s.threads[t], l)
    decreases |acts|
  {
    if acts != [] {
      StepKeepsInv(s, acts[0]);
      StepRelocks(s, acts[0], t, l);
      RelockingNeverFinishes(Do(s, acts[0]), acts[1..], t, l);
    }
  }

  // ---------------------------------------------------------------- lock order

  /** Sections nest upwards in the order of locks; only reads of the same lock may nest in each other. */
  predicate MayEnter(stack: seq<Section>, x: Section) {
    forall i :: 0 <= i < |stack| ==> stack[i].lock < x.lock || (stack[i] == x && x.Rd?)
  }

  /** prog keeps to the order, at least up to a lock call for a lock that it is in a write section of. */
  predicate Ordered(stack: seq<Section>, prog: seq<Op>)
    decreases |prog|
  {
    if prog == [] then true
    else
      var l := prog[0].lock;
      match prog[0]
      case StartRead(_) => Wr(l) in stack || (MayEnter(stack, Rd(l)) && Ordered(stack + [Rd(l)], prog[1..]))
      case StartWrite(_) => Wr(l) in stack || (MayEnter(stack, Wr(l)) && Ordered(stack + [Wr(l)], prog[1..]))
      case _ => Ordered(Pop(stack), prog[1..])
  }

  predicate StackOrdered(stack: seq<Section>) {
    forall i :: 0 <= i < |stack| ==> MayEnter(stack[..i], stack[i])
  }

  predicate ThreadOrdered(th: Thread) {
    && StackOrdered(th.stack)
    && Ordered(Settled(th), th.prog)
    && (th.phase.At? ==>
          && (th.phase.pc.ReadLocked? ==> MayEnter(th.stack, Rd(th.phase.lock)))
          && (AboutToWrite(th.phase.pc) ==> MayEnter(th.stack, Wr(th.phase.lock))))
  }

  predicate AboutToWrite(pc: Pc) {
    pc.WriteTest? || pc.WriteWait? || pc.Parked? || pc.Woken?
  }

  predicate ThreadsOrdered(s: State) {
    forall t :: 0 <= t < |s.threads| ==> ThreadOrdered(s.threads[t])
  }

  lemma StackPush(stack: seq<Section>, x: Section)
    requires StackOrdered(stack) && MayEnter(stack, x)
    ensures StackOrdered(stack + [x])
  {
  }

  lemma StackPop(stack: seq<Section>)
    requires StackOrdered(stack)
    ensures StackOrdered(Pop(stack))
  {
    forall i | 0 <= i < |Pop(stack)| ensures MayEnter(Pop(stack)[..i], Pop(stack)[i]) {
      assert Pop(stack)[..i] == stack[..i];
    }
  }

  lemma {:induction false} AdvanceOrderedReady(th: Thread, lk: Lock, me: Tid)
    requires ThreadOrdered(th) && CanAdvance(th, lk) && th.phase.Ready?
    requires NeedsMutex(th) ==> !Holds(th, Target(th))
    ensures ThreadOrdered(Advance(th, lk, me).0)
  {
    StackPop(th.stack);
  }

  lemma {:induction false} AdvanceOrderedInside(th: Thread, lk: Lock, me: Tid)
    requires ThreadOrdered(th) && CanAdvance(th, lk) && th.phase.At?
    ensures ThreadOrdered(Advance(th, lk, me).0)
  {
    AdvanceSettled(th, lk, me);
    match th.phase.pc
    case ReadLocked => StackPush(th.stack, Rd(th.phase.lock));
    case WriteTest => StackPush(th.stack, Wr(th.phase.lock));
    case EndLocked => StackPop(th.stack);
    case _ =>
  }

  lemma StepOrdered(s: State, a: Action)
    requires Inv(s) && ThreadsOrdered(s) && Enabled(s, a)
    ensures ThreadsOrdered(Do(s, a))
  {
    forall t | 0 <= t < |s.threads| ensures ThreadOrdered(Do(s, a).threads[t]) {
      var th := s.threads[t];
      assert ThreadOrdered(th);
      if a.Run? && a.t == t {
        FreeToTake(s, t);
        if th.phase.Ready? {
          AdvanceOrderedReady(th, s.locks[Target(th)], t);
        } else {
          AdvanceOrderedInside(th, s.locks[Target(th)], t);
        }
      } else if th.phase.At? && th.phase.pc.Parked? {
        WakeOrdered(th);
      }
    }
  }

  lemma {:induction false} WakeOrdered(th: Thread)
    requires ThreadOrdered(th) && th.phase.At? && th.phase.pc.Parked?
    ensures ThreadOrdered(WakeUp(th))
  {
  }

  lemma {:induction false} RunOrdered(s: State, acts: seq<Action>)
    requires Inv(s) && ThreadsOrdered(s) && IsRun(s, acts)
    ensures ThreadsOrdered(After(s, acts))
    decreases |acts|
  {
    if acts != [] {
      StepKeepsInv(s, acts[0]);
      StepOrdered(s, acts[0]);
      RunOrdered(Do(s, acts[0]), acts[1..]);
    }
  }

  // ---------------------------------------------------------------- deadlock

  /** No step is possible except spurious wake-ups. */
  ghost predicate Quiet(s: State) {
    forall t, wake :: !Enabled(s, Run(t, wake))
  }

  /** No thread can take its next micro-step. */
  predicate AllBlocked(s: State)
    requires ThreadsOk(s)
  {
    forall t :: 0 <= t < |s.threads| && !Finished(s.threads[t]) ==>
      !CanAdvance(s.threads[t], s.locks[Bound(s, t)])
  }

  /** The lock thread t works on, which exists. */
  function Bound(s: State, t: Tid): (l: LockId)
    requires ThreadsOk(s) && t < |s.threads| && !Finished(s.threads[t])
    ensures l == Target(s.threads[t]) && l < |s.locks|
  {
    assert ThreadOk(s.threads[t], |s.locks|);
    Target(s.threads[t])
  }

  lemma QuietMeansBlocked(s: State)
    requires ThreadsOk(s) && Quiet(s)
    ensures AllBlocked(s)
  {
    forall t | 0 <= t < |s.threads| && !Finished(s.threads[t])
      ensures !CanAdvance(s.threads[t], s.locks[Bound(s, t)])
    {
      var wake := if Signals(s.threads[t]) then ParkedOn(s, Bound(s, t)) else {};
      assert !Enabled(s, Run(t, wake));
    }
  }

  /** A blocked thread that holds a mutex waits for a lock further up, or for one that it holds itself. */
  lemma HolderWaitsAbove(s: State, l: LockId, t: Tid)
    requires Inv(s) && ThreadsOrdered(s) && AllBlocked(s)
    requires l < |s.locks| && t < |s.threads| && Holds(s.threads[t], l)
    ensures !Finished(s.threads[t])
    ensures Target(s.threads[t]) > l || SelfBlocked(s.threads[t], Target(s.threads[t]))
  {
    var th := s.threads[t];
    assert ThreadOk(th, |s.locks|) && ThreadOrdered(th);
    var lk := s.locks[Bound(s, t)];
    assert !CanAdvance(th, lk);
    if Wr(l) in th.stack {
      BlockedAbove(th, Wr(l), lk, |s.locks|);
    }
  }

  /** A blocked thread inside a section waits at or above that section's lock, and above it inside a write. */
  lemma BlockedAbove(th: Thread, x: Section, lk: Lock, n: nat)
    requires ThreadOk(th, n) && ThreadOrdered(th) && x in th.stack
    requires !Finished(th) && !CanAdvance(th, lk)
    ensures || Target(th) > x.lock || (x.Rd? && Target(th) == x.lock && NeedsMutex(th))
            || SelfBlocked(th, Target(th))
  {
  }

  /** Thread p is parked on a lock whose counter was leaked, or blocked by its own write section. */
  predicate Stranded(s: State, p: Tid) {
    && p < |s.threads| && !Finished(s.threads[p]) && Target(s.threads[p]) < |s.locks|
    && var th, l := s.threads[p], Target(s.threads[p]);
       SelfBlocked(th, l) || (th.phase == At(Parked, l) && s.locks[l].leaked > 0)
  }

  /** Following who waits for whom upwards ends at a stranded thread. */
  lemma {:induction false} Chase(s: State, t: Tid) returns (p: Tid)
    requires Inv(s) && ThreadsOrdered(s) && AllBlocked(s)
    requires t < |s.threads| && !Finished(s.threads[t])
    ensures Stranded(s, p)
    decreases |s.locks| - Bound(s, t), !NeedsMutex(s.threads[t])
  {
    var th := s.threads[t];
    var l := Bound(s, t);
    assert ThreadOk(th, |s.locks|);
    if Stranded(s, t) {
      p := t;
    } else {
      p := WaitsFor(s, t);
      if !Stranded(s, p) {
        p := Chase(s, p);
      }
    }
  }

  /** A blocked thread waits for another one, which is stranded or waits further up. */
  lemma WaitsFor(s: State, t: Tid) returns (u: Tid)
    requires Inv(s) && ThreadsOrdered(s) && AllBlocked(s)
    requires t < |s.threads| && !Finished(s.threads[t]) && !Stranded(s, t)
    ensures u < |s.threads| && !Finished(s.threads[u])
    ensures || Stranded(s, u) || Target(s.threads[u]) > Target(s.threads[t])
            || (Target(s.threads[u]) == Target(s.threads[t]) && NeedsMutex(s.threads[u]) && !NeedsMutex(s.threads[t]))
  {
    var l := Bound(s, t);
    if NeedsMutex(s.threads[t]) {
      u := s.locks[l].owner.value;
      assert Holds(s.threads[u], l);
      HolderWaitsAbove(s, l, u);
    } else {
      assert t in ParkedOn(s, l);
      u := FindHelper(s, l);
    }
    l := Bound(s, u);
  }

  /** When a thread is parked on l and no read of l was leaked, some other thread stands in its way. */
  lemma FindHelper(s: State, l: LockId) returns (u: Tid)
    requires Inv(s) && ThreadsOrdered(s) && AllBlocked(s)
    requires l < |s.locks| && ParkedOn(s, l) != {} && s.locks[l].leaked == 0
    ensures u < |s.threads| && !Finished(s.threads[u])
    ensures || Target(s.threads[u]) > l || (Target(s.threads[u]) == l && NeedsMutex(s.threads[u]))
            || SelfBlocked(s.threads[u], Target(s.threads[u]))
  {
    assert NoLostWake(s, l);
    if s.locks[l].readers > 0 {
      u := FindReader(s.threads, l);
      var th := s.threads[u];
      assert ThreadOk(th, |s.locks|) && ThreadOrdered(th);
      assert !Finished(th);
      assert !CanAdvance(th, s.locks[Bound(s, u)]);
      BlockedAbove(th, Rd(l), s.locks[Bound(s, u)], |s.locks|);
    } else {
      u :| 0 <= u < |s.threads| && Rescuer(s.threads[u], l);
      var th := s.threads[u];
      assert ThreadOk(th, |s.locks|) && ThreadOrdered(th);
      if Wr(l) in th.stack {
        HolderWaitsAbove(s, l, u);
      } else {
        assert !CanAdvance(th, s.locks[Bound(s, u)]);
      }
    }
  }

  lemma {:induction false} FindReader(ts: seq<Thread>, l: LockId) returns (u: nat)
    requires Total(ts, DepthOf(l)) > 0
    ensures u < |ts| && Rd(l) in ts[u].stack
  {
    u := |ts| - 1;
    DepthPositive(ts[u].stack, l);
    if Rd(l) !in ts[u].stack {
      u := FindReader(ts[..u], l);
    }
  }

  predicate AllFinished(s: State) {
    forall t :: 0 <= t < |s.threads| ==> Finished(s.threads[t])
  }

  /**
   For clients that respect the lock order: when only spurious wake-ups are left, either everything is
   finished, or some thread is parked on a lock that a FAIL return has left counted, or has locked twice.
   */
  lemma QuietStates(s0: State, acts: seq<Action>)
    requires Init(s0) && ThreadsOrdered(s0) && IsRun(s0, acts) && Quiet(After(s0, acts))
    ensures AllFinished(After(s0, acts)) <==> !(exists p :: Stranded(After(s0, acts), p))
  {
    var s := After(s0, acts);
    InitInv(s0);
    RunKeepsInv(s0, acts);
    RunOrdered(s0, acts);
    QuietMeansBlocked(s);
    if !AllFinished(s) {
      var t :| 0 <= t < |s.threads| && !Finished(s.threads[t]);
      var p := Chase(s, t);
    }
  }

  predicate NeverFails(s: State) {
    forall l, t :: 0 <= l < |s.locks| && 0 <= t < |s.threads| ==> Fails(s.threads[t].prog, l) == 0
  }

  /** Without FAIL returns and double locks, a run that can only go on by spurious wake-ups has finished all threads. */
  lemma RunsComplete(s0: State, acts: seq<Action>)
    requires Init(s0) && ThreadsOrdered(s0) && NeverFails(s0) && NeverRelocks(s0) && IsRun(s0, acts)
    requires Quiet(After(s0, acts))
    ensures AllFinished(After(s0, acts))
  {
    var s := After(s0, acts);
    QuietStates(s0, acts);
    RunShape(s0, acts);
    InitInv(s0);
    forall l | 0 <= l < |s.locks| ensures s.locks[l].leaked == 0 {
      NoFailsNoLeak(s0, acts, l);
    }
    forall p: Tid | Stranded(s, p) ensures false {
      RelockingNeverFinishes(s0, acts, p, Target(s.threads[p]));
    }
  }

  /**
   Without FAIL returns and double locks there is no deadlock: as long as a thread is unfinished, some
   micro-step other than a spurious wake-up is possible, nested reads and sections of several locks included.
   */
  lemma DeadlockFreedom(s0: State, acts: seq<Action>) returns (t: Tid, wake: set<Tid>)
    requires Init(s0) && ThreadsOrdered(s0) && NeverFails(s0) && NeverRelocks(s0) && IsRun(s0, acts)
    requires !AllFinished(After(s0, acts))
    ensures Enabled(After(s0, acts), Run(t, wake))
  {
    if Quiet(After(s0, acts)) {
      RunsComplete(s0, acts);
    }
    t, wake :| Enabled(After(s0, acts), Run(t, wake));
  }
}

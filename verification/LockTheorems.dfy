/** Whole-run theorems about the lock: exclusion, conservation of the counter, and the effect of leaked reads. */
module LockTheorems {

  import opened Options
  import opened LockProtocol
  import opened LockSafety

  // ---------------------------------------------------------------- exclusion and conservation

  lemma {:induction false} DepthPositive(stack: seq<Section>, l: LockId)
    ensures Depth(stack, l) > 0 <==> Rd(l) in stack
  {
    if stack != [] {
      DepthPositive(stack[..|stack| - 1], l);
      assert stack == stack[..|stack| - 1] + [stack[|stack| - 1]];
    }
  }

  /** t is inside some section of l. */
  predicate Inside(th: Thread, l: LockId) {
    Rd(l) in th.stack || Wr(l) in th.stack
  }

  /** A thread in a write section is the only thread in any section, and the counter is zero. */
  lemma MutualExclusion(s0: State, acts: seq<Action>, l: LockId, t: Tid)
    requires Init(s0) && IsRun(s0, acts) && l < |s0.locks|
    requires t < |After(s0, acts).threads| && Wr(l) in After(s0, acts).threads[t].stack
    ensures l < |After(s0, acts).locks|
    ensures After(s0, acts).locks[l].readers == 0
    ensures Rd(l) !in After(s0, acts).threads[t].stack
    ensures forall u :: 0 <= u < |After(s0, acts).threads| && u != t ==> !Inside(After(s0, acts).threads[u], l)
  {
    RunShape(s0, acts);
    InitInv(s0);
    RunKeepsInv(s0, acts);
    var s := After(s0, acts);
    assert Knows(s.threads[t], l, s.locks[l].readers);
    assert Holds(s.threads[t], l);
    forall u | 0 <= u < |s.threads|
      ensures Rd(l) !in s.threads[u].stack && (u != t ==> Wr(l) !in s.threads[u].stack)
    {
      TotalMember(s.threads, u, DepthOf(l));
      DepthPositive(s.threads[u].stack, l);
      assert s.locks[l].owner == Some(u) <==> Holds(s.threads[u], l);
      assert s.locks[l].owner == Some(t);
    }
  }

  /** In every reachable state a parked writer has a reader inside or a thread on its way to enter or to signal. */
  lemma NoLostWakeUp(s0: State, acts: seq<Action>, l: LockId, p: Tid)
    requires Init(s0) && IsRun(s0, acts) && l < |s0.locks|
    requires p < |After(s0, acts).threads| && After(s0, acts).threads[p].phase == At(Parked, l)
    ensures l < |After(s0, acts).locks|
    ensures || After(s0, acts).locks[l].readers > 0
            || exists t :: 0 <= t < |After(s0, acts).threads| && Rescuer(After(s0, acts).threads[t], l)
  {
    RunShape(s0, acts);
    InitInv(s0);
    RunKeepsInv(s0, acts);
    assert p in ParkedOn(After(s0, acts), l);
    assert NoLostWake(After(s0, acts), l);
  }

  lemma {:induction false} RunShape(s: State, acts: seq<Action>)
    requires IsRun(s, acts)
    ensures |After(s, acts).locks| == |s.locks| && |After(s, acts).threads| == |s.threads|
    decreases |acts|
  {
    if acts != [] {
      RunShape(Do(s, acts[0]), acts[1..]);
    }
  }

  /**
   What a wake-up may be: at any time a parked thread may wake without a signal, and a signal may wake any parked
   threads, one of them or all, but not none while there are some.  They go on to take the mutex again.
   */
  lemma WakeUps(s: State, t: Tid, p: Tid, wake: set<Tid>)
    requires t < |s.threads| && !Finished(s.threads[t]) && Target(s.threads[t]) < |s.locks|
    requires Signals(s.threads[t]) && CanAdvance(s.threads[t], s.locks[Target(s.threads[t])])
    requires p < |s.threads| && s.threads[p].phase == At(Parked, Target(s.threads[t])) && p in wake
    requires forall u :: u in wake ==> u < |s.threads| && s.threads[u].phase == At(Parked, Target(s.threads[t]))
    ensures Enabled(s, Spurious(p)) && Enabled(s, Run(t, wake)) && !Enabled(s, Run(t, {}))
    ensures Do(s, Spurious(p)) == s.(threads := s.threads[p := s.threads[p].(phase := At(Woken, Target(s.threads[t])))])
    ensures forall u :: 0 <= u < |s.threads| && u != t ==>
              Do(s, Run(t, wake)).threads[u]
              == if u in wake then s.threads[u].(phase := At(Woken, Target(s.threads[t]))) else s.threads[u]
  {
    assert p in ParkedOn(s, Target(s.threads[t]));
  }

  /** How often a program still returns FAIL out of a read section of l. */
  function Fails(prog: seq<Op>, l: LockId): nat {
    if prog == [] then 0 else (if prog[0] == ReturnFail(l) then 1 else 0) + Fails(prog[1..], l)
  }

  function FailsOf(l: LockId): Thread -> int {
    (th: Thread) => Fails(th.prog, l)
  }

  lemma StepFails(s: State, a: Action, l: LockId)
    requires Enabled(s, a) && l < |s.locks|
    ensures Do(s, a).locks[l].leaked + Total(Do(s, a).threads, FailsOf(l))
         == s.locks[l].leaked + Total(s.threads, FailsOf(l))
    ensures Do(s, a).locks[l].leaked >= s.locks[l].leaked
  {
    TotalChange(s.threads, Do(s, a).threads, a.t, FailsOf(l));
  }

  /**
   In every reachable state the counter is the sum of all nesting depths plus the number of reads that
   have returned FAIL without releasing, which is what their programs have used up.
   */
  lemma {:induction false} ReaderConservation(s0: State, acts: seq<Action>, l: LockId)
    requires Init(s0) && IsRun(s0, acts) && l < |s0.locks|
    ensures |After(s0, acts).locks| == |s0.locks|
    ensures var s := After(s0, acts);
            && s.locks[l].readers == Total(s.threads, DepthOf(l)) + s.locks[l].leaked
            && s.locks[l].leaked == Total(s0.threads, FailsOf(l)) - Total(s.threads, FailsOf(l))
  {
    RunShape(s0, acts);
    InitInv(s0);
    RunKeepsInv(s0, acts);
    RunFails(s0, acts, l);
  }

  lemma {:induction false} RunFails(s: State, acts: seq<Action>, l: LockId)
    requires IsRun(s, acts) && l < |s.locks|
    ensures |After(s, acts).locks| == |s.locks|
    ensures var s' := After(s, acts);
            && s'.locks[l].leaked + Total(s'.threads, FailsOf(l)) == s.locks[l].leaked + Total(s.threads, FailsOf(l))
            && s'.locks[l].leaked >= s.locks[l].leaked
    decreases |acts|
  {
    if acts != [] {
      StepFails(s, acts[0], l);
      RunFails(Do(s, acts[0]), acts[1..], l);
    }
  }

  /** When no program leaves a read through the FAIL path, nothing is ever leaked. */
  lemma NoFailsNoLeak(s0: State, acts: seq<Action>, l: LockId)
    requires Init(s0) && IsRun(s0, acts) && l < |s0.locks|
    requires forall t :: 0 <= t < |s0.threads| ==> Fails(s0.threads[t].prog, l) == 0
    ensures |After(s0, acts).locks| == |s0.locks| && After(s0, acts).locks[l].leaked == 0
  {
    var s := After(s0, acts);
    RunFails(s0, acts, l);
    TotalZero(s0.threads, FailsOf(l));
    TotalNonNegative(s.threads, FailsOf(l));
  }

  // ---------------------------------------------------------------- a leaked read

  /** A thread that still has to enter a write section of l. */
  predicate WillWrite(th: Thread, l: LockId) {
    || StartWrite(l) in th.prog
    || (th.phase.At? && th.phase.lock == l
        && (th.phase.pc.WriteTest? || th.phase.pc.WriteWait? || th.phase.pc.Parked? || th.phase.pc.Woken?))
  }

  lemma AdvanceWillWrite(th: Thread, lk: Lock, me: Tid, l: LockId)
    requires CanAdvance(th, lk) && WillWrite(th, l)
    requires l == Target(th) ==> lk.readers > 0
    ensures WillWrite(Advance(th, lk, me).0, l)
  {
    if th.phase.Ready? {
      assert th.prog == [th.prog[0]] + th.prog[1..];
    }
  }

  lemma LeakStep(s: State, a: Action, l: LockId, t: Tid)
    requires Inv(s) && Enabled(s, a) && l < |s.locks| && t < |s.threads|
    requires s.locks[l].leaked > 0 && WillWrite(s.threads[t], l)
    ensures WillWrite(Do(s, a).threads[t], l)
  {
    LeakMeansReaders(s, l);
    if a.Run? && a.t == t {
      AdvanceWillWrite(s.threads[t], s.locks[Target(s.threads[t])], t, l);
    }
  }

  lemma LeakMeansReaders(s: State, l: LockId)
    requires Inv(s) && l < |s.locks| && s.locks[l].leaked > 0
    ensures s.locks[l].readers > 0
    ensures forall t :: 0 <= t < |s.threads| ==> Wr(l) !in s.threads[t].stack
  {
    ReadersAtLeastLeaked(s, l);
    forall t | 0 <= t < |s.threads| ensures Wr(l) !in s.threads[t].stack {
      assert Knows(s.threads[t], l, s.locks[l].readers);
    }
  }

  /**
   Once a read of l has returned FAIL without releasing, no write section of l is ever entered again, by any
   thread in any continuation, and a thread that still has to enter one never finishes.
   */
  lemma {:induction false} LeakStopsWriters(s: State, acts: seq<Action>, l: LockId)
    requires Inv(s) && IsRun(s, acts) && l < |s.locks| && s.locks[l].leaked > 0
    ensures |After(s, acts).threads| == |s.threads|
    ensures forall t :: 0 <= t < |s.threads| ==> Wr(l) !in After(s, acts).threads[t].stack
    ensures forall t :: 0 <= t < |s.threads| && WillWrite(s.threads[t], l) ==> !Finished(After(s, acts).threads[t])
    decreases |acts|
  {
    LeakMeansReaders(s, l);
    if acts != [] {
      var s' := Do(s, acts[0]);
      StepKeepsInv(s, acts[0]);
      StepFails(s, acts[0], l);
      forall t | 0 <= t < |s.threads| && WillWrite(s.threads[t], l) ensures WillWrite(s'.threads[t], l) {
        LeakStep(s, acts[0], l, t);
      }
      LeakStopsWriters(s', acts[1..], l);
    }
  }

  lemma StepUsesFail(s: State, a: Action, t: Tid, l: LockId)
    requires Enabled(s, a) && t < |s.threads| && l < |s.locks|
    ensures Do(s, a).locks[l].leaked - s.locks[l].leaked
         >= Fails(s.threads[t].prog, l) - Fails(Do(s, a).threads[t].prog, l)
  {
    if a.Run? && a.t != t {
      assert Do(s, a).threads[t].prog == s.threads[t].prog;
    }
  }

  lemma {:induction false} UsedFails(s: State, acts: seq<Action>, t: Tid, l: LockId)
    requires IsRun(s, acts) && t < |s.threads| && l < |s.locks|
    ensures |After(s, acts).locks| == |s.locks| && |After(s, acts).threads| == |s.threads|
    ensures After(s, acts).locks[l].leaked - s.locks[l].leaked
         >= Fails(s.threads[t].prog, l) - Fails(After(s, acts).threads[t].prog, l)
    decreases |acts|
  {
    if acts != [] {
      StepUsesFail(s, acts[0], t, l);
      UsedFails(Do(s, acts[0]), acts[1..], t, l);
    }
  }

  /**
   Once a thread that had to leave a read of l through FAIL is done, no thread is ever in a write section of l
   again, and every thread that still has to enter one never finishes.
   */
  lemma FinishedFailStopsWriters(s0: State, acts: seq<Action>, more: seq<Action>, t: Tid, l: LockId)
    requires Init(s0) && IsRun(s0, acts) && IsRun(After(s0, acts), more)
    requires l < |s0.locks| && t < |s0.threads| && Fails(s0.threads[t].prog, l) >= 1
    requires t < |After(s0, acts).threads| && Finished(After(s0, acts).threads[t])
    ensures |After(s0, acts).threads| == |After(After(s0, acts), more).threads| == |s0.threads|
    ensures forall u :: 0 <= u < |s0.threads| ==>
              && Wr(l) !in After(After(s0, acts), more).threads[u].stack
              && (WillWrite(After(s0, acts).threads[u], l) ==> !Finished(After(After(s0, acts), more).threads[u]))
  {
    InitInv(s0);
    RunKeepsInv(s0, acts);
    UsedFails(s0, acts, t, l);
    LeakStopsWriters(After(s0, acts), more, l);
  }

  // ---------------------------------------------------------------- taking a lock again inside its write section

  predicate SelfBlocked(th: Thread, l: LockId) {
    && th.phase.Ready? && th.prog != [] && Wr(l) in th.stack
    && (th.prog[0] == StartRead(l) || th.prog[0] == StartWrite(l))
  }

  /** A thread that still has to take lock l, to read or to write. */
  predicate WillEnter(th: Thread, l: LockId) {
    StartRead(l) in th.prog || WillWrite(th, l)
  }

  lemma AdvanceWillEnter(th: Thread, lk: Lock, me: Tid, l: LockId)
    requires CanAdvance(th, lk) && WillEnter(th, l)
    requires l == Target(th) ==> lk.owner.Some? && !Holds(th, l)
    ensures WillEnter(Advance(th, lk, me).0, l)
  {
    if th.phase.Ready? {
      assert th.prog == [th.prog[0]] + th.prog[1..];
    }
  }

  lemma SelfBlockedStays(s: State, a: Action, l: LockId, t: Tid)
    requires Inv(s) && Enabled(s, a) && l < |s.locks| && t < |s.threads| && SelfBlocked(s.threads[t], l)
    ensures Do(s, a).threads[t] == s.threads[t]
  {
    assert Holds(s.threads[t], l);
    assert s.locks[l].owner == Some(t);
  }

  /** While t is in its write section of k, no other thread gets the mutex, let alone through its lock call. */
  lemma ShutOut(s: State, a: Action, t: Tid, u: Tid, k: LockId)
    requires Inv(s) && t < |s.threads| && u < |s.threads| && u != t && k < |s.locks| && Wr(k) in s.threads[t].stack
    requires Enabled(s, a) && WillEnter(s.threads[u], k)
    ensures WillEnter(Do(s, a).threads[u], k)
  {
    OnlyHolder(s, t, u, k);
    if a.Run? && a.t == u {
      AdvanceWillEnter(s.threads[u], s.locks[Target(s.threads[u])], u, k);
    }
  }

  lemma OnlyHolder(s: State, t: Tid, u: Tid, k: LockId)
    requires Inv(s) && t < |s.threads| && u < |s.threads| && u != t && k < |s.locks| && Wr(k) in s.threads[t].stack
    ensures s.locks[k].owner == Some(t) && !Holds(s.threads[u], k)
  {
    assert s.locks[k].owner == Some(t) <==> Holds(s.threads[t], k);
    assert s.locks[k].owner == Some(u) <==> Holds(s.threads[u], k);
  }

  /**
   A thread that calls for a lock it holds in a write section never moves again.  Neither that lock nor any
   other lock k that it is in a write section of is ever held by another thread u, and if u still has to take
   one of them it never finishes.
   */
  lemma {:induction false} SelfDeadlock(s: State, acts: seq<Action>, l: LockId, t: Tid, k: LockId, u: Tid)
    requires Inv(s) && IsRun(s, acts) && l < |s.locks| && t < |s.threads| && SelfBlocked(s.threads[t], l)
    requires k < |s.locks| && Wr(k) in s.threads[t].stack && u < |s.threads| && u != t
    ensures |After(s, acts).threads| == |s.threads| && After(s, acts).threads[t] == s.threads[t]
    ensures !Holds(After(s, acts).threads[u], k)
    ensures WillEnter(s.threads[u], k) ==> !Finished(After(s, acts).threads[u])
    decreases |acts|
  {
    if acts == [] {
      OnlyHolder(s, t, u, k);
    } else {
      StepKeepsInv(s, acts[0]);
      SelfBlockedStays(s, acts[0], l, t);
      if WillEnter(s.threads[u], k) {
        ShutOut(s, acts[0], t, u, k);
      }
      SelfDeadlock(Do(s, acts[0]), acts[1..], l, t, k, u);
    }
  }
}

/** Safety of the lock protocol: what every micro-step of any bracketed clients keeps. */
module LockSafety {

  import opened Options
  import opened LockProtocol

  // ---------------------------------------------------------------- one step of one thread

  lemma PushSingle(stack: seq<Section>, x: Section)
    requires SingleWrites(stack) && (x.Wr? ==> x !in stack)
    ensures SingleWrites(stack + [x])
    ensures forall l :: Wr(l) in stack + [x] <==> Wr(l) in stack || x == Wr(l)
  {
  }

  lemma PopSingle(stack: seq<Section>)
    requires SingleWrites(stack) && stack != []
    ensures SingleWrites(Pop(stack))
    ensures forall l :: Wr(l) in Pop(stack) <==> Wr(l) in stack && stack[|stack| - 1] != Wr(l)
  {
    assert stack == Pop(stack) + [stack[|stack| - 1]];
  }

  lemma AdvanceOkReady(th: Thread, lk: Lock, me: Tid, n: nat)
    requires ThreadOk(th, n) && CanAdvance(th, lk) && th.phase.Ready?
    requires NeedsMutex(th) ==> !Holds(th, Target(th))
    ensures Target(th) < n && ThreadOk(Advance(th, lk, me).0, n)
  {
    assert th.prog[0].lock < n;
    if !NeedsMutex(th) {
      PopSingle(th.stack);
    }
  }

  lemma AdvanceOkInside(th: Thread, lk: Lock, me: Tid, n: nat)
    requires ThreadOk(th, n) && CanAdvance(th, lk) && th.phase.At?
    ensures Target(th) < n && ThreadOk(Advance(th, lk, me).0, n)
  {
    match th.phase.pc
    case ReadLocked => PushSingle(th.stack, Rd(th.phase.lock));
    case WriteTest => PushSingle(th.stack, Wr(th.phase.lock));
    case EndLocked => PopSingle(th.stack);
    case _ =>
  }

  lemma AdvanceOk(th: Thread, lk: Lock, me: Tid, n: nat)
    requires ThreadOk(th, n) && CanAdvance(th, lk)
    requires NeedsMutex(th) ==> !Holds(th, Target(th))
    ensures Target(th) < n && ThreadOk(Advance(th, lk, me).0, n)
  {
    if th.phase.Ready? {
      AdvanceOkReady(th, lk, me, n);
    } else {
      AdvanceOkInside(th, lk, me, n);
    }
  }

  /** The other locks that a thread is in a write section of stay the same. */
  lemma AdvanceWrites(th: Thread, lk: Lock, me: Tid, n: nat, l: LockId)
    requires ThreadOk(th, n) && CanAdvance(th, lk) && l != Target(th)
    ensures Wr(l) in Advance(th, lk, me).0.stack <==> Wr(l) in th.stack
  {
    if th.phase.Ready? {
      if !NeedsMutex(th) {
        PopSingle(th.stack);
      }
    } else if th.phase.pc.EndLocked? {
      PopSingle(th.stack);
    }
  }

  /** The step changes ownership only of its own lock, and keeps it in agreement with the thread's position. */
  lemma AdvanceHolds(th: Thread, lk: Lock, me: Tid, n: nat)
    requires ThreadOk(th, n) && CanAdvance(th, lk)
    requires lk.owner == Some(me) <==> Holds(th, Target(th))
    ensures var (th', lk') := Advance(th, lk, me);
            && (lk'.owner == Some(me) <==> Holds(th', Target(th)))
            && (forall t: Tid :: t != me ==> (lk'.owner == Some(t) <==> lk.owner == Some(t)))
            && (forall l :: l != Target(th) ==> (Holds(th', l) <==> Holds(th, l)))
  {
  }

  lemma AdvanceCount(th: Thread, lk: Lock, me: Tid, n: nat, l: LockId)
    requires ThreadOk(th, n) && CanAdvance(th, lk)
    ensures var (th', lk') := Advance(th, lk, me);
            if l == Target(th)
            then lk'.readers - lk'.leaked - Depth(th'.stack, l) == lk.readers - lk.leaked - Depth(th.stack, l)
            else Depth(th'.stack, l) == Depth(th.stack, l)
  {
  }

  lemma AdvanceKnows(th: Thread, lk: Lock, me: Tid, n: nat, l: LockId, r: int)
    requires ThreadOk(th, n) && CanAdvance(th, lk)
    requires Knows(th, l, r) && (l == Target(th) ==> r == lk.readers >= 0)
    ensures var (th', lk') := Advance(th, lk, me);
            && Knows(th', l, if l == Target(th) then lk'.readers else r)
            && (lk'.readers != lk.readers ==> Holds(th, Target(th)))
  {
  }

  // ---------------------------------------------------------------- the counter as a sum over threads

  lemma {:induction false} TotalSame(ts: seq<Thread>, us: seq<Thread>, f: Thread -> int)
    requires |ts| == |us|
    requires forall i :: 0 <= i < |ts| ==> f(us[i]) == f(ts[i])
    ensures Total(us, f) == Total(ts, f)
  {
    if ts != [] {
      TotalSame(ts[..|ts| - 1], us[..|us| - 1], f);
    }
  }

  lemma {:induction false} TotalChange(ts: seq<Thread>, us: seq<Thread>, k: nat, f: Thread -> int)
    requires |ts| == |us| && k < |ts|
    requires forall i :: 0 <= i < |ts| && i != k ==> f(us[i]) == f(ts[i])
    ensures Total(us, f) - f(us[k]) == Total(ts, f) - f(ts[k])
  {
    var n := |ts| - 1;
    if k == n {
      TotalSame(ts[..n], us[..n], f);
    } else {
      TotalChange(ts[..n], us[..n], k, f);
    }
  }

  lemma {:induction false} TotalZero(ts: seq<Thread>, f: Thread -> int)
    requires forall i :: 0 <= i < |ts| ==> f(ts[i]) == 0
    ensures Total(ts, f) == 0
  {
    if ts != [] {
      TotalZero(ts[..|ts| - 1], f);
    }
  }

  lemma {:induction false} TotalMember(ts: seq<Thread>, k: nat, f: Thread -> int)
    requires k < |ts|
    requires forall i :: 0 <= i < |ts| ==> 0 <= f(ts[i])
    ensures f(ts[k]) <= Total(ts, f)
  {
    TotalNonNegative(ts[..|ts| - 1], f);
    if k < |ts| - 1 {
      TotalMember(ts[..|ts| - 1], k, f);
    }
  }

  lemma {:induction false} TotalNonNegative(ts: seq<Thread>, f: Thread -> int)
    requires forall i :: 0 <= i < |ts| ==> 0 <= f(ts[i])
    ensures 0 <= Total(ts, f)
  {
    if ts != [] {
      TotalNonNegative(ts[..|ts| - 1], f);
    }
  }

  lemma ReadersAtLeastLeaked(s: State, l: LockId)
    requires Counting(s) && l < |s.locks|
    ensures s.locks[l].readers >= s.locks[l].leaked
  {
    TotalNonNegative(s.threads, DepthOf(l));
  }

  // ---------------------------------------------------------------- one step of the system

  lemma StepThreads(s: State, a: Action)
    requires Inv(s) && Enabled(s, a)
    ensures ThreadsOk(Do(s, a))
  {
    var s' := Do(s, a);
    var th := s.threads[a.t];
    assert ThreadOk(th, |s.locks|);
    if a.Run? {
      assert s.locks[Target(th)].owner == Some(a.t) <==> Holds(th, Target(th));
      AdvanceOk(th, s.locks[Target(th)], a.t, |s.locks|);
    }
    forall t | 0 <= t < |s.threads| ensures ThreadOk(s'.threads[t], |s.locks|) {
      assert ThreadOk(s.threads[t], |s.locks|);
    }
  }

  lemma StepOwnership(s: State, a: Action)
    requires Inv(s) && Enabled(s, a)
    ensures Ownership(Do(s, a))
  {
    var s' := Do(s, a);
    var th := s.threads[a.t];
    assert ThreadOk(th, |s.locks|);
    if a.Run? {
      assert s.locks[Target(th)].owner == Some(a.t) <==> Holds(th, Target(th));
      AdvanceHolds(th, s.locks[Target(th)], a.t, |s.locks|);
    }
    forall l, t | 0 <= l < |s.locks| && 0 <= t < |s.threads|
      ensures s'.locks[l].owner == Some(t) <==> Holds(s'.threads[t], l)
    {
      assert s.locks[l].owner == Some(t) <==> Holds(s.threads[t], l);
      assert t != a.t ==> (Holds(s'.threads[t], l) <==> Holds(s.threads[t], l));
    }
  }

  lemma StepCounting(s: State, a: Action)
    requires Inv(s) && Enabled(s, a)
    ensures Counting(Do(s, a))
  {
    var s' := Do(s, a);
    var th := s.threads[a.t];
    assert ThreadOk(th, |s.locks|);
    forall l | 0 <= l < |s.locks|
      ensures s'.locks[l].readers == Total(s'.threads, DepthOf(l)) + s'.locks[l].leaked
    {
      TotalChange(s.threads, s'.threads, a.t, DepthOf(l));
      if a.Run? {
        AdvanceCount(th, s.locks[Target(th)], a.t, |s.locks|, l);
      }
    }
  }

  lemma StepKnowledge(s: State, a: Action)
    requires Inv(s) && Enabled(s, a)
    ensures Knowledge(Do(s, a))
  {
    var s' := Do(s, a);
    var th := s.threads[a.t];
    assert ThreadOk(th, |s.locks|);
    forall l, t | 0 <= l < |s.locks| && 0 <= t < |s.threads|
      ensures Knows(s'.threads[t], l, s'.locks[l].readers)
    {
      assert Knows(s.threads[t], l, s.locks[l].readers);
      if a.Run? {
        ReadersAtLeastLeaked(s, Target(th));
        AdvanceKnows(th, s.locks[Target(th)], a.t, |s.locks|, Target(th), s.locks[Target(th)].readers);
        AdvanceKnows(th, s.locks[Target(th)], a.t, |s.locks|, l, s.locks[l].readers);
        if t != a.t && l == Target(th) && Holds(s.threads[t], l) {
          assert s.locks[l].owner == Some(t);
        }
      }
    }
  }

  /** A woken thread is a rescuer, and every rescuer either stays one or has signalled or left readers behind. */
  lemma StepWake(s: State, a: Action, l: LockId)
    requires Inv(s) && Enabled(s, a) && l < |s.locks|
    ensures NoLostWake(Do(s, a), l)
  {
    var s' := Do(s, a);
    var th := s.threads[a.t];
    assert ThreadOk(th, |s.locks|);
    StepCounting(s, a);
    if ParkedOn(s', l) != {} && s'.locks[l].readers <= 0 {
      var p :| p in ParkedOn(s', l);
      if a.Spurious? {
        assert p in ParkedOn(s, l);
        assert NoLostWake(s, l);
        var t :| 0 <= t < |s.threads| && Rescuer(s.threads[t], l);
        assert Rescuer(s'.threads[t], l);
      } else if Target(th) != l {
        StepWakeElsewhere(s, a, l, p);
      } else {
        StepWakeHere(s, a, p);
      }
    }
  }

  lemma StepWakeElsewhere(s: State, a: Action, l: LockId, p: Tid)
    requires Inv(s) && Enabled(s, a) && a.Run? && l < |s.locks| && Target(s.threads[a.t]) != l
    requires p in ParkedOn(Do(s, a), l) && s.locks[l].readers <= 0
    ensures exists t :: 0 <= t < |s.threads| && Rescuer(Do(s, a).threads[t], l)
  {
    var th := s.threads[a.t];
    assert p in ParkedOn(s, l);
    assert NoLostWake(s, l);
    var t :| 0 <= t < |s.threads| && Rescuer(s.threads[t], l);
    if t == a.t {
      assert ThreadOk(th, |s.locks|);
      AdvanceWrites(th, s.locks[Target(th)], t, |s.locks|, l);
    }
    assert Rescuer(Do(s, a).threads[t], l);
  }

  lemma StepWakeHere(s: State, a: Action, p: Tid)
    requires Inv(s) && Enabled(s, a) && a.Run?
    requires var l := Target(s.threads[a.t]); p in ParkedOn(Do(s, a), l) && Do(s, a).locks[l].readers <= 0
    ensures var l := Target(s.threads[a.t]);
            exists t :: 0 <= t < |s.threads| && Rescuer(Do(s, a).threads[t], l)
  {
    var s' := Do(s, a);
    var th := s.threads[a.t];
    var l := Target(th);
    assert ThreadOk(th, |s.locks|);
    assert Knows(th, l, s.locks[l].readers);
    if p != a.t {
      assert p in ParkedOn(s, l);
      if Signals(th) {
        var w :| w in a.wake;
        assert Rescuer(s'.threads[w], l);
      } else if s.locks[l].readers > 0 {
        assert th.phase == At(EndLocked, l);
        assert Rescuer(s'.threads[a.t], l);
      } else {
        assert NoLostWake(s, l);
        var t :| 0 <= t < |s.threads| && Rescuer(s.threads[t], l);
        ReadersAtLeastLeaked(s, l);
        assert Rescuer(s'.threads[t], l);
      }
    }
  }

  /** Every micro-step keeps the invariant: signals, waits and spurious wake-ups alike. */
  lemma StepKeepsInv(s: State, a: Action)
    requires Inv(s) && Enabled(s, a)
    ensures Inv(Do(s, a))
  {
    StepThreads(s, a);
    StepOwnership(s, a);
    StepCounting(s, a);
    StepKnowledge(s, a);
    forall l | 0 <= l < |s.locks| ensures NoLostWake(Do(s, a), l) {
      StepWake(s, a, l);
    }
  }

  lemma InitInv(s: State)
    requires Init(s)
    ensures Inv(s)
  {
    forall l | 0 <= l < |s.locks|
      ensures s.locks[l].readers == Total(s.threads, DepthOf(l)) + s.locks[l].leaked
    {
      TotalZero(s.threads, DepthOf(l));
    }
  }

  lemma {:induction false} RunKeepsInv(s: State, acts: seq<Action>)
    requires Inv(s) && IsRun(s, acts)
    ensures Inv(After(s, acts))
    decreases |acts|
  {
    if acts != [] {
      StepKeepsInv(s, acts[0]);
      RunKeepsInv(Do(s, acts[0]), acts[1..]);
    }
  }
}

/**
 Exactly when a service with unreleased FAIL returns and double locks still completes: no thread may write a
 lock that another thread, or the same thread earlier, leaves through a FAIL return, and none may lock twice.
 */
module LeakExactness {

  import opened Options
  import opened LockProtocol
  import opened LockSafety
  import opened LockTheorems
  import opened LockLiveness
  import opened FileClients

  /** Operation i of t is a FAIL return from l, and operation j of u is a write of l that can come after it. */
  predicate Conflict(threads: seq<Thread>, t: Tid, i: nat, u: Tid, j: nat) {
    && t < |threads| && i < |threads[t].prog| && threads[t].prog[i].ReturnFail?
    && u < |threads| && j < |threads[u].prog| && threads[u].prog[j] == StartWrite(threads[t].prog[i].lock)
    && (t != u || i < j)
  }

  ghost predicate Hazard(s: State) {
    exists t, i, u, j :: Conflict(s.threads, t, i, u, j)
  }

  // ---------------------------------------------------------------- without a hazard every run completes

  /** No thread will write a leaked lock, nor a lock that a FAIL return still to come will leak before. */
  predicate SafeFrom(s: State, t: Tid, i: nat, u: Tid)
    requires t < |s.threads| && i < |s.threads[t].prog| && u < |s.threads|
  {
    s.threads[t].prog[i].ReturnFail? ==>
      var l := s.threads[t].prog[i].lock;
      if t != u then !WillWrite(s.threads[u], l) else StartWrite(l) !in s.threads[t].prog[i..]
  }

  predicate Safe(s: State) {
    && (forall l, u :: 0 <= l < |s.locks| && 0 <= u < |s.threads| && s.locks[l].leaked > 0 ==>
          !WillWrite(s.threads[u], l))
    && (forall t, i, u :: 0 <= t < |s.threads| && 0 <= i < |s.threads[t].prog| && 0 <= u < |s.threads| ==>
          SafeFrom(s, t, i, u))
  }

  /** A step never makes a thread want to write more than before. */
  lemma StepWillWrite(s: State, a: Action, u: Tid, l: LockId)
    requires Enabled(s, a) && u < |s.threads| && WillWrite(Do(s, a).threads[u], l)
    ensures WillWrite(s.threads[u], l)
  {
    if a.t == u && a.Run? && s.threads[u].phase.Ready? {
      assert s.threads[u].prog == [s.threads[u].prog[0]] + s.threads[u].prog[1..];
    }
  }

  lemma StepSafeLeak(s: State, a: Action, l: LockId, u: Tid)
    requires Safe(s) && Enabled(s, a) && l < |s.locks| && u < |s.threads|
    requires Do(s, a).locks[l].leaked > 0
    ensures !WillWrite(Do(s, a).threads[u], l)
  {
    if s.locks[l].leaked > 0 {
      if WillWrite(Do(s, a).threads[u], l) {
        StepWillWrite(s, a, u, l);
      }
    } else {
      var th := s.threads[a.t];
      assert th.phase.Ready? && th.prog[0] == ReturnFail(l);
      assert SafeFrom(s, a.t, 0, u);
      assert th.prog[0..] == th.prog;
      assert u != a.t ==> Do(s, a).threads[u] == s.threads[u];
    }
  }

  lemma StepSafeFrom(s: State, a: Action, t: Tid, i: nat, u: Tid)
    requires Safe(s) && Enabled(s, a) && t < |s.threads| && u < |s.threads| && i < |Do(s, a).threads[t].prog|
    ensures SafeFrom(Do(s, a), t, i, u)
  {
    var was, now := s.threads[t].prog, Do(s, a).threads[t].prog;
    var k := |was| - |now| + i;
    assert now == was || now == was[1..];
    assert SafeFrom(s, t, k, u);
    assert now[i] == was[k] && now[i..] == was[k..];
    if now[i].ReturnFail? && t != u && WillWrite(Do(s, a).threads[u], now[i].lock) {
      StepWillWrite(s, a, u, now[i].lock);
    }
  }

  lemma {:induction false} RunSafe(s: State, acts: seq<Action>)
    requires Safe(s) && IsRun(s, acts)
    ensures Safe(After(s, acts))
    decreases |acts|
  {
    if acts != [] {
      var s' := Do(s, acts[0]);
      forall l, u | 0 <= l < |s'.locks| && 0 <= u < |s'.threads| && s'.locks[l].leaked > 0
        ensures !WillWrite(s'.threads[u], l)
      {
        StepSafeLeak(s, acts[0], l, u);
      }
      forall t, i, u | 0 <= t < |s'.threads| && 0 <= i < |s'.threads[t].prog| && 0 <= u < |s'.threads|
        ensures SafeFrom(s', t, i, u)
      {
        StepSafeFrom(s, acts[0], t, i, u);
      }
      RunSafe(s', acts[1..]);
    }
  }

  lemma NoHazardIsSafe(s: State)
    requires Init(s) && !Hazard(s)
    ensures Safe(s)
  {
    forall t, i, u | 0 <= t < |s.threads| && 0 <= i < |s.threads[t].prog| && 0 <= u < |s.threads|
      ensures SafeFrom(s, t, i, u)
    {
      var p := s.threads[t].prog;
      if p[i].ReturnFail? {
        var q := s.threads[u].prog;
        forall j | 0 <= j < |q| && (t != u || i <= j) ensures q[j] != StartWrite(p[i].lock) {
          assert !Conflict(s.threads, t, i, u, j);
        }
      }
    }
  }

  // ---------------------------------------------------------------- a hazard can be run into

  /** Thread t is the only one that has done anything. */
  predicate Solo(s: State, t: Tid) {
    && t < |s.threads|
    && (forall u :: 0 <= u < |s.threads| && u != t ==> s.threads[u].phase.Ready? && s.threads[u].stack == [])
  }

  ghost predicate LocksOnce(th: Thread) {
    forall l :: !WillRelock(th, l)
  }

  /** Thread u will write a leaked lock, so it never finishes. */
  predicate Doomed(s: State, u: Tid, l: LockId) {
    u < |s.threads| && l < |s.locks| && s.locks[l].leaked > 0 && WillWrite(s.threads[u], l)
  }

  lemma SoloReaders(s: State, t: Tid, l: LockId)
    requires Inv(s) && Solo(s, t) && l < |s.locks|
    ensures s.locks[l].readers == Depth(s.threads[t].stack, l) + s.locks[l].leaked
  {
    var idle := s.threads[t := s.threads[t].(stack := [])];
    TotalChange(idle, s.threads, t, DepthOf(l));
    TotalZero(idle, DepthOf(l));
  }

  /** A thread running alone can go on, unless it is parked on a lock that it leaked itself. */
  lemma SoloCanAdvance(s: State, t: Tid)
    requires Inv(s) && ThreadsOrdered(s) && Solo(s, t) && !Finished(s.threads[t])
    requires LocksOnce(s.threads[t])
    ensures Target(s.threads[t]) < |s.locks|
    ensures CanAdvance(s.threads[t], s.locks[Target(s.threads[t])]) || Doomed(s, t, Target(s.threads[t]))
    ensures ParkedOn(s, Target(s.threads[t])) <= {t}
  {
    var th := s.threads[t];
    var l := Bound(s, t);
    var lk := s.locks[l];
    assert ThreadOk(th, |s.locks|) && ThreadOrdered(th) && !WillRelock(th, l);
    if !CanAdvance(th, lk) {
      if NeedsMutex(th) {
        var u := lk.owner.value;
        assert Holds(s.threads[u], l);
        assert u == t;
        assert Wr(l) in th.stack;
        BlockedAbove(th, Wr(l), lk, |s.locks|);
        assert false;
      } else {
        assert t in ParkedOn(s, l);
        assert NoLostWake(s, l);
        SoloReaders(s, t, l);
        DepthPositive(th.stack, l);
        assert !Rescuer(th, l);
      }
    }
  }

  lemma AdvanceProg(th: Thread, lk: Lock, me: Tid)
    requires CanAdvance(th, lk)
    ensures var (th', lk') := Advance(th, lk, me);
            th'.prog == th.prog
            || (th.phase.Ready? && th'.prog == th.prog[1..] && (th.prog[0].ReturnFail? ==> lk'.leaked > 0))
  {
  }

  lemma SoloStep(s: State, t: Tid) returns (s': State)
    requires Inv(s) && ThreadsOrdered(s) && Solo(s, t) && !Finished(s.threads[t])
    requires !Doomed(s, t, Target(s.threads[t])) && LocksOnce(s.threads[t])
    ensures Enabled(s, Run(t, {})) && s' == Do(s, Run(t, {}))
    ensures Inv(s') && ThreadsOrdered(s') && 0 <= Budget(s') < Budget(s)
    ensures |s'.threads| == |s.threads| && |s'.locks| == |s.locks|
    ensures LocksOnce(s'.threads[t])
    ensures forall u :: 0 <= u < |s.threads| && u != t ==> s'.threads[u] == s.threads[u]
    ensures s'.threads[t].prog == s.threads[t].prog
            || (s.threads[t].phase.Ready? && s'.threads[t].prog == s.threads[t].prog[1..]
                && (s.threads[t].prog[0].ReturnFail? ==>
                      s.threads[t].prog[0].lock < |s.locks| && s'.locks[s.threads[t].prog[0].lock].leaked > 0))
  {
    SoloCanAdvance(s, t);
    var l := Target(s.threads[t]);
    assert Signals(s.threads[t]) ==> t !in ParkedOn(s, l);
    assert Enabled(s, Run(t, {}));
    s' := Do(s, Run(t, {}));
    AdvanceProg(s.threads[t], s.locks[l], t);
    StepKeepsInv(s, Run(t, {}));
    StepOrdered(s, Run(t, {}));
    StepBudget(s, Run(t, {}));
    BudgetNonNegative(s');
    forall l: LockId ensures !WillRelock(s'.threads[t], l) {
      StepRelocks(s, Run(t, {}), t, l);
    }
  }

  lemma BudgetNonNegative(s: State)
    ensures Budget(s) >= 0
  {
    TotalNonNegative(s.threads, CostOf(|s.threads|));
  }

  /** From s, thread t alone has got past the FAIL return at position i of its program, or is doomed. */
  ghost predicate Driven(s: State, s': State, t: Tid, i: nat)
    requires t < |s.threads| && i < |s.threads[t].prog|
  {
    && |s'.threads| == |s.threads| && |s'.locks| == |s.locks|
    && ((exists l :: Doomed(s', t, l))
        || (&& s'.threads == s.threads[t := s'.threads[t]]
            && s'.threads[t].prog == s.threads[t].prog[i + 1..]
            && s.threads[t].prog[i].lock < |s'.locks| && s'.locks[s.threads[t].prog[i].lock].leaked > 0))
  }

  lemma DriveStep(s: State, s1: State, s': State, t: Tid, i: nat, k: nat)
    requires t < |s.threads| == |s1.threads| && |s.locks| == |s1.locks|
    requires s1.threads == s.threads[t := s1.threads[t]]
    requires i < |s.threads[t].prog| && k < |s1.threads[t].prog|
    requires s1.threads[t].prog[k..] == s.threads[t].prog[i..]
    requires Driven(s1, s', t, k)
    ensures Driven(s, s', t, i)
  {
    assert s1.threads[t].prog[k..][0] == s1.threads[t].prog[k] && s.threads[t].prog[i..][0] == s.threads[t].prog[i];
    assert s1.threads[t].prog[k..][1..] == s1.threads[t].prog[k + 1..];
    assert s.threads[t].prog[i..][1..] == s.threads[t].prog[i + 1..];
  }

  lemma DriveEnd(s: State, s1: State, t: Tid)
    requires t < |s.threads| == |s1.threads| && |s.locks| == |s1.locks|
    requires s1.threads == s.threads[t := s1.threads[t]]
    requires s.threads[t].prog != [] && s1.threads[t].prog == s.threads[t].prog[1..]
    requires s.threads[t].prog[0].lock < |s.locks| && s1.locks[s.threads[t].prog[0].lock].leaked > 0
    ensures Driven(s, s1, t, 0)
  {
  }

  lemma {:induction false} RunPrepend(s: State, a: Action, rest: seq<Action>)
    requires Enabled(s, a) && IsRun(Do(s, a), rest)
    ensures IsRun(s, [a] + rest) && After(s, [a] + rest) == After(Do(s, a), rest)
  {
    assert ([a] + rest)[1..] == rest;
  }

  /**
   Running t alone up to the FAIL return at position i of its program either gets there, with nothing else
   changed, or dooms t on the way.
   */
  lemma {:induction false} Drive(s: State, t: Tid, i: nat) returns (acts: seq<Action>)
    requires Inv(s) && ThreadsOrdered(s) && Solo(s, t) && LocksOnce(s.threads[t])
    requires i < |s.threads[t].prog| && s.threads[t].prog[i].ReturnFail?
    ensures IsRun(s, acts) && Driven(s, After(s, acts), t, i)
    decreases Budget(s), 1
  {
    BudgetNonNegative(s);
    if Doomed(s, t, Target(s.threads[t])) {
      acts := [];
    } else {
      var s1 := SoloStep(s, t);
      assert s1.threads == s.threads[t := s1.threads[t]];
      if s1.threads[t].prog != s.threads[t].prog && i == 0 {
        acts := [Run(t, {})] + [];
        RunPrepend(s, Run(t, {}), []);
        DriveEnd(s, s1, t);
      } else {
        acts := DriveOn(s, s1, t, i, if s1.threads[t].prog == s.threads[t].prog then i else i - 1);
      }
    }
  }

  lemma {:induction false} DriveOn(s: State, s1: State, t: Tid, i: nat, k: nat) returns (acts: seq<Action>)
    requires Enabled(s, Run(t, {})) && s1 == Do(s, Run(t, {})) && 0 <= Budget(s1) < Budget(s)
    requires Inv(s1) && ThreadsOrdered(s1) && Solo(s1, t) && LocksOnce(s1.threads[t])
    requires t < |s.threads| == |s1.threads| && |s.locks| == |s1.locks|
    requires s1.threads == s.threads[t := s1.threads[t]]
    requires i < |s.threads[t].prog| && s.threads[t].prog[i].ReturnFail?
    requires k < |s1.threads[t].prog| && s1.threads[t].prog[k..] == s.threads[t].prog[i..]
    ensures IsRun(s, acts) && Driven(s, After(s, acts), t, i)
    decreases Budget(s), 0
  {
    assert s1.threads[t].prog[k] == s1.threads[t].prog[k..][0] == s.threads[t].prog[i..][0];
    var rest := Drive(s1, t, k);
    acts := [Run(t, {})] + rest;
    RunPrepend(s, Run(t, {}), rest);
    DriveStep(s, s1, After(s1, rest), t, i, k);
  }

  /** Every state has a run to a state where only spurious wake-ups are left. */
  lemma {:induction false} Exhaust(s: State) returns (acts: seq<Action>)
    ensures IsRun(s, acts) && Quiet(After(s, acts))
    decreases Budget(s)
  {
    BudgetNonNegative(s);
    if Quiet(s) {
      acts := [];
    } else {
      var t, wake :| Enabled(s, Run(t, wake));
      StepBudget(s, Run(t, wake));
      BudgetNonNegative(Do(s, Run(t, wake)));
      var rest := Exhaust(Do(s, Run(t, wake)));
      acts := [Run(t, wake)] + rest;
      RunPrepend(s, Run(t, wake), rest);
    }
  }

  lemma {:induction false} RunAppend(s: State, a: seq<Action>, b: seq<Action>)
    requires IsRun(s, a) && IsRun(After(s, a), b)
    ensures IsRun(s, a + b) && After(s, a + b) == After(After(s, a), b)
    decreases |a|
  {
    if a == [] {
      assert a + b == b;
    } else {
      assert (a + b)[1..] == a[1..] + b;
      RunAppend(Do(s, a[0]), a[1..], b);
    }
  }

  /** A conflict can be run into: some run ends with a thread that can never finish. */
  lemma RunIntoConflict(s0: State, t: Tid, i: nat, u: Tid, j: nat) returns (acts: seq<Action>)
    requires Init(s0) && ThreadsOrdered(s0) && Conflict(s0.threads, t, i, u, j)
    ensures IsRun(s0, acts) && Quiet(After(s0, acts)) && !AllFinished(After(s0, acts))
  {
    InitInv(s0);
    if l :| WillRelock(s0.threads[t], l) {
      acts := Exhaust(s0);
      RelockingNeverFinishes(s0, acts, t, l);
    } else {
      acts := LeakAndExhaust(s0, t, i, u, j);
    }
  }

  lemma LeakAndExhaust(s0: State, t: Tid, i: nat, u: Tid, j: nat) returns (acts: seq<Action>)
    requires Init(s0) && ThreadsOrdered(s0) && Conflict(s0.threads, t, i, u, j)
    requires LocksOnce(s0.threads[t])
    ensures IsRun(s0, acts) && Quiet(After(s0, acts)) && !AllFinished(After(s0, acts))
  {
    InitInv(s0);
    assert LocksBelow(s0.threads[t].prog, |s0.locks|);
    var l := s0.threads[t].prog[i].lock;
    var front := Drive(s0, t, i);
    var s := After(s0, front);
    RunKeepsInv(s0, front);
    var back := Exhaust(s);
    acts := front + back;
    RunAppend(s0, front, back);
    if k :| Doomed(s, t, k) {
      LeakStopsWriters(s, back, k);
    } else {
      if t == u {
        assert s.threads[t].prog[j - i - 1] == s0.threads[t].prog[j];
      }
      assert StartWrite(l) in s.threads[u].prog;
      LeakStopsWriters(s, back, l);
    }
  }

  // ---------------------------------------------------------------- the exact condition

  /** Every run that can only go on by spurious wake-ups has finished all threads. */
  ghost predicate AlwaysCompletes(s0: State) {
    forall acts :: IsRun(s0, acts) && Quiet(After(s0, acts)) ==> AllFinished(After(s0, acts))
  }

  /** Without a hazard a leaked lock strands nobody: in a final state only a double lock can. */
  lemma OnlyDoubleLocksStrand(s0: State, acts: seq<Action>, p: Tid)
    requires Init(s0) && !Hazard(s0) && IsRun(s0, acts) && Stranded(After(s0, acts), p)
    ensures p < |s0.threads|
    ensures SelfBlocked(After(s0, acts).threads[p], Target(After(s0, acts).threads[p]))
  {
    NoHazardIsSafe(s0);
    RunSafe(s0, acts);
    RunShape(s0, acts);
  }

  /**
   For ordered clients, with FAIL returns and double locks as written: every run that cannot go on has finished
   all threads exactly if no thread locks twice and no write of a lock can come after a FAIL return from it.
   */
  lemma CompletesExactlyWithoutHazard(s0: State)
    requires Init(s0) && ThreadsOrdered(s0)
    ensures AlwaysCompletes(s0) <==> !Hazard(s0) && NeverRelocks(s0)
  {
    InitInv(s0);
    if Hazard(s0) {
      var t, i, u, j :| Conflict(s0.threads, t, i, u, j);
      var acts := RunIntoConflict(s0, t, i, u, j);
    } else if t, l :| 0 <= t < |s0.threads| && WillRelock(s0.threads[t], l) {
      var acts := Exhaust(s0);
      RelockingNeverFinishes(s0, acts, t, l);
    } else {
      forall acts | IsRun(s0, acts) && Quiet(After(s0, acts)) ensures AllFinished(After(s0, acts)) {
        QuietStates(s0, acts);
        forall p: Tid | Stranded(After(s0, acts), p) ensures false {
          OnlyDoubleLocksStrand(s0, acts, p);
          RelockingNeverFinishes(s0, acts, p, Target(After(s0, acts).threads[p]));
        }
      }
    }
  }

  // ---------------------------------------------------------------- the condition in terms of calls

  /** Call i of client t is refused on a lock that call j of client u writes, and call j can come after it. */
  predicate CallConflict(clients: seq<seq<Call>>, hs: Handles, t: nat, i: nat, u: nat, j: nat, l: LockId) {
    && t < |clients| && i < |clients[t]| && FailsOn(clients[t][i], hs, l)
    && u < |clients| && j < |clients[u]| && WritesOn(clients[u][j], hs, l)
    && (t != u || i < j)
  }

  ghost predicate CallHazard(clients: seq<seq<Call>>, hs: Handles) {
    exists t, i, u, j, l :: CallConflict(clients, hs, t, i, u, j, l)
  }

  /** The parts one after the other. */
  function Flat(parts: seq<seq<Op>>): seq<Op> {
    if parts == [] then [] else parts[0] + Flat(parts[1..])
  }

  /** Where part c starts. */
  function Offset(parts: seq<seq<Op>>, c: nat): nat
    requires c <= |parts|
  {
    if c == 0 then 0 else |parts[0]| + Offset(parts[1..], c - 1)
  }

  lemma {:induction false} OffsetGrows(parts: seq<seq<Op>>, c: nat, d: nat)
    requires c < d <= |parts|
    ensures Offset(parts, c) + |parts[c]| <= Offset(parts, d)
    decreases c
  {
    if c > 0 {
      OffsetGrows(parts[1..], c - 1, d - 1);
    }
  }

  lemma {:induction false} Place(parts: seq<seq<Op>>, c: nat, k: nat)
    requires c < |parts| && k < |parts[c]|
    ensures Offset(parts, c) + k < |Flat(parts)| && Flat(parts)[Offset(parts, c) + k] == parts[c][k]
    decreases c
  {
    if c > 0 {
      Place(parts[1..], c - 1, k);
    }
  }

  lemma {:induction false} Locate(parts: seq<seq<Op>>, i: nat) returns (c: nat, k: nat)
    requires i < |Flat(parts)|
    ensures c < |parts| && k < |parts[c]| && i == Offset(parts, c) + k && Flat(parts)[i] == parts[c][k]
    decreases |parts|
  {
    if i < |parts[0]| {
      c, k := 0, i;
    } else {
      c, k := Locate(parts[1..], i - |parts[0]|);
      c := c + 1;
    }
  }

  /** Two operations are in the order of the parts they come from. */
  lemma {:induction false} PartOrder(parts: seq<seq<Op>>, c: nat, k: nat, d: nat, m: nat)
    requires c < |parts| && d < |parts| && k < |parts[c]| && m < |parts[d]| && c != d
    ensures Offset(parts, c) + k < Offset(parts, d) + m <==> c < d
  {
    if c < d {
      OffsetGrows(parts, c, d);
    } else {
      OffsetGrows(parts, d, c);
    }
  }

  /** The operations of each call. */
  function Parts(calls: seq<Call>, hs: Handles, v: Variant): (p: seq<seq<Op>>)
    requires CallsOk(calls, hs)
    ensures |p| == |calls| && forall c :: 0 <= c < |p| ==> p[c] == CallOps(calls[c], hs, v)
  {
    seq(|calls|, c requires 0 <= c < |calls| => CallOps(calls[c], hs, v))
  }

  lemma {:induction false} ProgramIsFlat(calls: seq<Call>, hs: Handles, v: Variant)
    requires CallsOk(calls, hs)
    ensures ProgramOf(calls, hs, v) == Flat(Parts(calls, hs, v))
  {
    if calls != [] {
      ProgramIsFlat(calls[1..], hs, v);
      assert Parts(calls, hs, v)[1..] == Parts(calls[1..], hs, v);
    }
  }

  lemma {:induction false} PlaceOfCall(calls: seq<Call>, hs: Handles, v: Variant, c: nat, k: nat)
    requires CallsOk(calls, hs) && c < |calls| && k < |CallOps(calls[c], hs, v)|
    ensures Offset(Parts(calls, hs, v), c) + k < |ProgramOf(calls, hs, v)|
    ensures ProgramOf(calls, hs, v)[Offset(Parts(calls, hs, v), c) + k] == CallOps(calls[c], hs, v)[k]
  {
    ProgramIsFlat(calls, hs, v);
    Place(Parts(calls, hs, v), c, k);
  }

  lemma FailOfCall(c: Call, hs: Handles, v: Variant, k: nat)
    requires (c.GetByName? || c.GetByFd? || c.h < |hs.locks|) && k < |CallOps(c, hs, v)|
    requires CallOps(c, hs, v)[k].ReturnFail?
    ensures FailsOn(c, hs, CallOps(c, hs, v)[k].lock) && !v.releaseOnFail
  {
  }

  lemma WriteOfCall(c: Call, hs: Handles, v: Variant, k: nat, l: LockId)
    requires HandlesOk(hs) && (c.GetByName? || c.GetByFd? || c.h < |hs.locks|) && k < |CallOps(c, hs, v)|
    requires CallOps(c, hs, v)[k] == StartWrite(l) && l < hs.sup
    ensures WritesOn(c, hs, l)
  {
  }

  lemma ConflictOfCalls(clients: seq<seq<Call>>, hs: Handles, v: Variant, t: nat, i: nat, u: nat, j: nat)
    returns (c: nat, d: nat, l: LockId)
    requires ClientsOk(clients, hs) && t < |clients| && u < |clients|
    requires Conflict(Service(clients, hs, v).threads, t, i, u, j)
    ensures CallConflict(clients, hs, t, c, u, d, l) && !v.releaseOnFail
  {
    var p, q := ProgramOf(clients[t], hs, v), ProgramOf(clients[u], hs, v);
    l := p[i].lock;
    ProgramIsFlat(clients[t], hs, v);
    ProgramIsFlat(clients[u], hs, v);
    var k, m;
    c, k := Locate(Parts(clients[t], hs, v), i);
    d, m := Locate(Parts(clients[u], hs, v), j);
    FailOfCall(clients[t][c], hs, v, k);
    WriteOfCall(clients[u][d], hs, v, m, l);
    if t == u && c != d {
      PartOrder(Parts(clients[t], hs, v), c, k, d, m);
    }
  }

  lemma FailIsLast(c: Call, hs: Handles, v: Variant, l: LockId)
    requires FailsOn(c, hs, l) && !v.releaseOnFail
    ensures var p := CallOps(c, hs, v); p != [] && p[|p| - 1] == ReturnFail(l)
  {
  }

  lemma WriteIsFirst(c: Call, hs: Handles, v: Variant, l: LockId)
    requires WritesOn(c, hs, l)
    ensures var p := CallOps(c, hs, v); p != [] && p[0] == StartWrite(l)
  {
  }

  lemma CallsInConflict(clients: seq<seq<Call>>, hs: Handles, v: Variant, t: nat, c: nat, u: nat, d: nat, l: LockId)
    returns (i: nat, j: nat)
    requires ClientsOk(clients, hs) && !v.releaseOnFail && CallConflict(clients, hs, t, c, u, d, l)
    ensures Conflict(Service(clients, hs, v).threads, t, i, u, j)
  {
    FailIsLast(clients[t][c], hs, v, l);
    var k := |CallOps(clients[t][c], hs, v)| - 1;
    WriteIsFirst(clients[u][d], hs, v, l);
    var p, q := Parts(clients[t], hs, v), Parts(clients[u], hs, v);
    PlaceOfCall(clients[t], hs, v, c, k);
    PlaceOfCall(clients[u], hs, v, d, 0);
    i, j := Offset(p, c) + k, Offset(q, d) + 0;
    if t == u {
      PartOrder(p, c, k, d, 0);
    }
    assert Service(clients, hs, v).threads[t].prog == ProgramOf(clients[t], hs, v);
    assert Service(clients, hs, v).threads[u].prog == ProgramOf(clients[u], hs, v);
    assert ProgramOf(clients[t], hs, v)[i] == ReturnFail(l) && ProgramOf(clients[u], hs, v)[j] == StartWrite(l);
  }

  lemma ServiceHazard(clients: seq<seq<Call>>, hs: Handles, v: Variant)
    requires ClientsOk(clients, hs)
    ensures Hazard(Service(clients, hs, v)) <==> !v.releaseOnFail && CallHazard(clients, hs)
  {
    if !v.releaseOnFail && CallHazard(clients, hs) {
      var t: nat, c: nat, u: nat, d: nat, l: LockId :| CallConflict(clients, hs, t, c, u, d, l);
      var i, j := CallsInConflict(clients, hs, v, t, c, u, d, l);
    } else if Hazard(Service(clients, hs, v)) {
      var t: nat, i: nat, u: nat, j: nat :| Conflict(Service(clients, hs, v).threads, t, i, u, j);
      var c, d, l := ConflictOfCalls(clients, hs, v, t, i, u, j);
    }
  }

  /**
   The file service, each of its two places as written or as meant: every run that cannot go on has finished all
   calls of all clients exactly if reads are released on FAIL, or no refused replicated read can be followed by
   an open, close, write or seek on the same lock, by another client or later by the same one; and the lookup
   does not lock again, or no client makes an open that registers.
   */
  lemma ServiceCompletesExactly(clients: seq<seq<Call>>, hs: Handles, v: Variant)
    requires ClientsOk(clients, hs)
    ensures AlwaysCompletes(Service(clients, hs, v))
            <==> (v.releaseOnFail || !CallHazard(clients, hs)) && (v.lookupUnlocked || !SomeoneOpens(clients))
  {
    ServiceInit(clients, hs, v);
    ServiceHazard(clients, hs, v);
    ServiceRelocks(clients, hs, v);
    CompletesExactlyWithoutHazard(Service(clients, hs, v));
  }

  /** Both places as written: the service completes exactly without such a pair of calls and without opens. */
  lemma AsWrittenCompletesExactly(clients: seq<seq<Call>>, hs: Handles)
    requires ClientsOk(clients, hs)
    ensures AlwaysCompletes(Service(clients, hs, AS_WRITTEN)) <==> !CallHazard(clients, hs) && !SomeoneOpens(clients)
  {
    ServiceCompletesExactly(clients, hs, AS_WRITTEN);
  }

  /**
   What one open does to the service as written, unless a leaked lock stops it first: every run that cannot go
   on has some client blocked inside its own open, holding the supervisor's lock.
   */
  lemma SomeOpenBlocks(clients: seq<seq<Call>>, hs: Handles, releaseOnFail: bool, acts: seq<Action>) returns (t: Tid)
    requires ClientsOk(clients, hs) && SomeoneOpens(clients) && (releaseOnFail || !CallHazard(clients, hs))
    requires IsRun(Service(clients, hs, Variant(releaseOnFail, false)), acts)
    requires Quiet(After(Service(clients, hs, Variant(releaseOnFail, false)), acts))
    ensures t < |After(Service(clients, hs, Variant(releaseOnFail, false)), acts).threads| && Opens(clients, t)
    ensures SelfBlocked(After(Service(clients, hs, Variant(releaseOnFail, false)), acts).threads[t], hs.sup)
  {
    var v := Variant(releaseOnFail, false);
    var s0 := Service(clients, hs, v);
    var o: nat :| Opens(clients, o);
    OpenAsWrittenNeverReturns(clients, hs, releaseOnFail, acts, o);
    ServiceInit(clients, hs, v);
    ServiceHazard(clients, hs, v);
    QuietStates(s0, acts);
    t :| Stranded(After(s0, acts), t);
    OnlyDoubleLocksStrand(s0, acts, t);
    OnlyOpensBlockThemselves(clients, hs, v, acts, t, Target(After(s0, acts).threads[t]));
  }
}

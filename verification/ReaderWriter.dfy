/**
 readerWriter.cpp in its own form: an object whose copies share one mutex, one condition and one counter.

 Each method is what one thread does when no other thread interferes: it returns when the function does, or when
 the function blocks, as it does at once if the mutex is taken.  Its contract equates the shared state with the
 micro-steps of LockProtocol, so the micro-steps are the statements of these methods.  What happens when
 threads interleave between the statements is the subject of LockSafety, LockTheorems and LockLiveness.
 */
module ReaderWriter {

  import opened Options
  import opened LockProtocol

  /** The objects behind the three shared pointers. */
  class Shared {
    var owner: Option<Tid>
    var readers: int
    ghost var leaked: nat

    constructor ()
      ensures Value() == FREE_LOCK
    {
      owner, readers, leaked := None, 0, 0;
    }

    ghost function Value(): Lock
      reads this
    {
      Lock(owner, readers, leaked)
    }

    /** taken: false when the call blocks, because some thread, the caller included, has the mutex. */
    method MutexLock(me: Tid) returns (taken: bool)
      modifies this`owner
      ensures taken <==> old(owner).None?
      ensures owner == if taken then Some(me) else old(owner)
    {
      taken := owner.None?;
      if taken {
        owner := Some(me);
      }
    }

    method MutexUnlock()
      modifies this`owner
      ensures owner == None
    {
      owner := None;
    }
  }

  /** At most k micro-steps of one thread on one lock, with no interference. */
  ghost function Alone(th: Thread, lk: Lock, me: Tid, k: nat): (Thread, Lock)
    decreases k
  {
    if k == 0 || !CanAdvance(th, lk) then (th, lk)
    else
      var (th', lk') := Advance(th, lk, me);
      Alone(th', lk', me, k - 1)
  }

  /** How far rwlock_start_write gets: to its lock call, to its first pthread_cond_wait, or through. */
  datatype Entry = AtMutex | AtCondition | Through

  class ReaderWriter {
    const shared: Shared

    constructor ()
      ensures fresh(shared) && shared.Value() == FREE_LOCK
    {
      shared := new Shared();
    }

    /** A copy uses the lock of its original. */
    constructor Copy(other: ReaderWriter)
      ensures shared == other.shared
    {
      shared := other.shared;
    }

    /** taken: whether the call gets the mutex and so returns; otherwise nothing has changed. */
    method RwlockStartRead(me: Tid, ghost l: LockId, ghost stack: seq<Section>) returns (taken: bool)
      modifies shared
      ensures (if taken then Thread(Ready, stack + [Rd(l)], []) else Thread(Ready, stack, [StartRead(l)]),
               shared.Value())
           == Alone(Thread(Ready, stack, [StartRead(l)]), old(shared.Value()), me, 3)
      ensures taken <==> old(shared.owner).None?
      ensures shared.Value() == old(shared.Value()).(readers := old(shared.readers) + if taken then 1 else 0)
    {
      ghost var at := (Thread(Ready, stack, [StartRead(l)]), shared.Value());
      assert at.0.prog[1..] == [];
      taken := shared.MutexLock(me);
      if !taken {
        return;
      }
      ghost var locked := Advance(at.0, at.1, me);
      shared.readers := shared.readers + 1;
      ghost var counted := Advance(locked.0, locked.1, me);
      shared.MutexUnlock();
      ghost var done := Advance(counted.0, counted.1, me);
    }

    /** signalled: whether the condition variable was signalled. */
    method RwlockEndRead(me: Tid, ghost l: LockId, ghost stack: seq<Section>) returns (taken: bool, signalled: bool)
      modifies shared
      ensures (if taken then Thread(Ready, stack, []) else Thread(Ready, stack + [Rd(l)], [EndRead(l)]),
               shared.Value())
           == Alone(Thread(Ready, stack + [Rd(l)], [EndRead(l)]), old(shared.Value()), me, if signalled then 5 else 4)
      ensures taken <==> old(shared.owner).None?
      ensures shared.Value() == old(shared.Value()).(readers := old(shared.readers) - if taken then 1 else 0)
      ensures signalled <==> taken && shared.readers == 0
    {
      ghost var at := (Thread(Ready, stack + [Rd(l)], [EndRead(l)]), shared.Value());
      assert at.0.prog[1..] == [];
      taken := shared.MutexLock(me);
      if !taken {
        return false, false;
      }
      ghost var locked := Advance(at.0, at.1, me);
      shared.readers := shared.readers - 1;
      ghost var counted := Advance(locked.0, locked.1, me);
      signalled := shared.readers == 0;
      ghost var tested := Advance(counted.0, counted.1, me);
      ghost var told := if signalled then Advance(tested.0, tested.1, me) else tested;
      shared.MutexUnlock();
      assert Alone(tested.0, tested.1, me, if signalled then 2 else 1)
          == Alone(counted.0, counted.1, me, if signalled then 3 else 2);
    }

    method RwlockStartWrite(me: Tid, ghost l: LockId, ghost stack: seq<Section>) returns (entry: Entry)
      modifies shared
      ensures (match entry
               case AtMutex => Thread(Ready, stack, [StartWrite(l)])
               case AtCondition => Thread(At(Parked, l), stack, [])
               case Through => Thread(Ready, stack + [Wr(l)], []),
               shared.Value())
           == Alone(Thread(Ready, stack, [StartWrite(l)]), old(shared.Value()), me, if entry.Through? then 2 else 3)
      ensures entry.AtMutex? <==> old(shared.owner).Some?
      ensures entry.Through? <==> old(shared.owner).None? && shared.readers <= 0
      ensures shared.Value() == old(shared.Value()).(owner := if entry.Through? then Some(me) else old(shared.owner))
    {
      ghost var at := (Thread(Ready, stack, [StartWrite(l)]), shared.Value());
      assert at.0.prog[1..] == [];
      var taken := shared.MutexLock(me);
      if !taken {
        return AtMutex;
      }
      ghost var locked := Advance(at.0, at.1, me);
      ghost var tested := Advance(locked.0, locked.1, me);
      if shared.readers > 0 {
        shared.MutexUnlock();
        assert Advance(tested.0, tested.1, me) == Alone(tested.0, tested.1, me, 1);
        return AtCondition;
      }
      return Through;
    }

    /** Signals, then gives the mutex back. */
    method RwlockEndWrite(me: Tid, ghost l: LockId, ghost stack: seq<Section>)
      requires shared.owner == Some(me)
      modifies shared
      ensures (Thread(Ready, stack, []), shared.Value())
           == Alone(Thread(Ready, stack + [Wr(l)], [EndWrite(l)]), old(shared.Value()), me, 2)
      ensures shared.Value() == old(shared.Value()).(owner := None)
    {
      ghost var at := (Thread(Ready, stack + [Wr(l)], [EndWrite(l)]), shared.Value());
      assert at.0.prog[1..] == [];
      ghost var told := Advance(at.0, at.1, me);
      shared.MutexUnlock();
    }
  }
}

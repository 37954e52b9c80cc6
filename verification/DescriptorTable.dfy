/**
 What lookups, opens by name and closes by descriptor do to the names and descriptors of the registry, as a
 function of the requests.  Registry.ServeAll is proved to do exactly this; here is what that means over any
 sequence of requests.
 */
module DescriptorTable {

  import opened Options
  import opened Messages

  type Name = seq<Byte>

  datatype Request = Lookup(name: Name) | Open(name: Name, osFd: int) | Close(fd: int, closed: int)

  /**
   files has the registered names, each with the descriptor it holds open; index has the name last opened on each
   descriptor, which stays there when the file is closed; openFds are the descriptors open in the system.
   */
  datatype Table = Table(files: map<Name, Option<int>>, index: map<int, Name>, openFds: set<int>)

  const EMPTY_TABLE := Table(map[], map[], {})

  /** What the system's open can answer: the descriptor asked about if it is free, otherwise a failure. */
  function OpenAnswer(openFds: set<int>, osFd: int): (fd: int)
    ensures fd >= -1 && (-1 !in openFds ==> fd !in openFds)
  {
    if osFd >= 0 && osFd !in openFds then osFd else -1
  }

  predicate Holds(t: Table, n: Name, f: int) {
    n in t.files && t.files[n] == Some(f)
  }

  predicate IsOpen(t: Table, n: Name) {
    n in t.files && t.files[n].Some?
  }

  function Register(t: Table, n: Name): Table {
    if n in t.files then t else t.(files := t.files[n := None])
  }

  /** The open file that a close of fd gets to: the one last opened on fd, on whatever descriptor it is open now. */
  function Reached(t: Table, fd: int): Option<Name> {
    if fd in t.index && IsOpen(t, t.index[fd]) then Some(t.index[fd]) else None
  }

  function Serve(t: Table, r: Request): Table {
    match r
    case Lookup(n) => Register(t, n)
    case Open(n, osFd) =>
      var f := OpenAnswer(t.openFds, osFd);
      if IsOpen(t, n) || f < 0 then Register(t, n)
      else Table(t.files[n := Some(f)], t.index[f := n], t.openFds + {f})
    case Close(fd, _) =>
      match Reached(t, fd)
      case None => t
      case Some(n) => Table(t.files[n := None], t.index, t.openFds - {t.files[n].value})
  }

  function Served(t: Table, requests: seq<Request>): Table
    decreases |requests|
  {
    if requests == [] then t else Served(Serve(t, requests[0]), requests[1..])
  }

  /** Held descriptors are open in the system and indexed for their holder. */
  ghost predicate TableOk(t: Table) {
    && -1 !in t.openFds
    && (forall f :: f in t.index ==> t.index[f] in t.files)
    && (forall n :: IsOpen(t, n) ==>
          var f := t.files[n].value; f in t.openFds && f in t.index && t.index[f] == n)
  }

  // ---------------------------------------------------------------- one request

  lemma ServeKeepsOk(t: Table, r: Request)
    requires TableOk(t)
    ensures TableOk(Serve(t, r))
  {
  }

  /** An open changes a descriptor exactly if the file is closed and the descriptor free, and then only these two. */
  lemma OpenEffect(t: Table, n: Name, f: int)
    requires TableOk(t)
    ensures var t' := Serve(t, Open(n, f));
            && (!IsOpen(t, n) && f >= 0 && f !in t.openFds ==> Holds(t', n, f) && t'.openFds == t.openFds + {f})
            && (IsOpen(t, n) || f < 0 || f in t.openFds ==>
                  t'.openFds == t.openFds && t'.index == t.index && (forall g :: Holds(t', n, g) <==> Holds(t, n, g)))
            && (forall m, g :: m != n ==> (Holds(t', m, g) <==> Holds(t, m, g)))
  {
  }

  /** A close of a held descriptor closes it and its file, and nothing else. */
  lemma CloseEffect(t: Table, n: Name, f: int, closed: int)
    requires TableOk(t) && Holds(t, n, f)
    ensures var t' := Serve(t, Close(f, closed));
            && !IsOpen(t', n) && t'.openFds == t.openFds - {f}
            && (forall m, g :: m != n ==> (Holds(t', m, g) <==> Holds(t, m, g)))
  {
    assert IsOpen(t, n);
  }

  /**
   A close of a descriptor that no file holds changes nothing exactly if the file last opened on that descriptor
   is not open; if it is, on another descriptor, that one is closed.
   */
  lemma UnheldClose(t: Table, f: int, closed: int)
    requires TableOk(t) && forall n :: !Holds(t, n, f)
    ensures var t' := Serve(t, Close(f, closed));
            && (t' == t <==> !(f in t.index && IsOpen(t, t.index[f])))
            && (f in t.index && IsOpen(t, t.index[f]) ==>
                  var g := t.files[t.index[f]].value; g != f && t'.openFds == t.openFds - {g} && g !in t'.openFds)
  {
    if f in t.index {
      assert !Holds(t, t.index[f], f);
    }
  }

  /** A stale descriptor closes a file that was opened again on another one. */
  lemma StaleClose(a: Name)
    ensures var t := Served(EMPTY_TABLE, [Open(a, 3), Close(3, 0), Open(a, 4)]);
            && Holds(t, a, 4) && t.openFds == {4}
            && Served(t, [Close(3, 0)]).openFds == {} && !IsOpen(Served(t, [Close(3, 0)]), a)
  {
    var p3 := [Open(a, 4)];
    var p2 := [Close(3, 0)] + p3;
    var p1 := [Open(a, 3)] + p2;
    assert p1 == [Open(a, 3), Close(3, 0), Open(a, 4)] && p1[1..] == p2 && p2[1..] == p3 && p3[1..] == [];
    var t1 := Serve(EMPTY_TABLE, p1[0]);
    assert t1.files[a] == Some(3);
    var t2 := Serve(t1, p2[0]);
    assert t2.openFds == {};
    var t3 := Serve(t2, p3[0]);
    assert t3.openFds == {4};
    assert Served(EMPTY_TABLE, p1) == Served(t1, p2) == Served(t2, p3) == t3;
    assert [Close(3, 0)][1..] == [];
  }

  // ---------------------------------------------------------------- any sequence of requests

  lemma {:induction false} ServedAppend(t: Table, a: seq<Request>, b: seq<Request>)
    ensures Served(t, a + b) == Served(Served(t, a), b)
    decreases |a|
  {
    if a == [] {
      assert a + b == b;
    } else {
      assert (a + b)[1..] == a[1..] + b;
      ServedAppend(Serve(t, a[0]), a[1..], b);
    }
  }

  lemma {:induction false} ServedOk(t: Table, requests: seq<Request>)
    requires TableOk(t)
    ensures TableOk(Served(t, requests))
    decreases |requests|
  {
    if requests != [] {
      ServeKeepsOk(t, requests[0]);
      ServedOk(Serve(t, requests[0]), requests[1..]);
    }
  }

  predicate Names(r: Request, n: Name) {
    !r.Close? && r.name == n
  }

  /** A name is registered in the end exactly if it was before or some request looks it up or opens it. */
  lemma {:induction false} RegisteredNames(t: Table, requests: seq<Request>, n: Name)
    requires TableOk(t)
    ensures n in Served(t, requests).files
            <==> n in t.files || exists i :: 0 <= i < |requests| && Names(requests[i], n)
    decreases |requests|
  {
    if requests != [] {
      var t', rest := Serve(t, requests[0]), requests[1..];
      ServeKeepsOk(t, requests[0]);
      RegisteredNames(t', rest, n);
      assert requests == [requests[0]] + rest;
    }
  }

  /** Every open descriptor is held by a file. */
  ghost predicate NoneLost(t: Table) {
    forall f :: f in t.openFds ==> exists n :: Holds(t, n, f)
  }

  /** No descriptor is ever lost: what is open in the system is what the files hold. */
  lemma DescriptorsConserved(t: Table, requests: seq<Request>, f: int)
    requires TableOk(t) && NoneLost(t)
    ensures f in Served(t, requests).openFds <==> exists n :: Holds(Served(t, requests), n, f)
  {
    var t' := Served(t, requests);
    ServedOk(t, requests);
    ServedLosesNone(t, requests);
    if n :| Holds(t', n, f) {
      assert IsOpen(t', n);
    }
  }

  lemma {:induction false} ServedLosesNone(t: Table, requests: seq<Request>)
    requires TableOk(t) && NoneLost(t)
    ensures NoneLost(Served(t, requests))
    decreases |requests|
  {
    if requests != [] {
      ServeKeepsOk(t, requests[0]);
      ServeLosesNone(t, requests[0]);
      ServedLosesNone(Serve(t, requests[0]), requests[1..]);
    }
  }

  lemma ServeLosesNone(t: Table, r: Request)
    requires TableOk(t) && NoneLost(t)
    ensures NoneLost(Serve(t, r))
  {
    var t' := Serve(t, r);
    forall f | f in t'.openFds ensures exists n :: Holds(t', n, f) {
      if r.Open? && f !in t.openFds {
        assert Holds(t', r.name, f);
      } else {
        var n :| Holds(t, n, f);
        assert Holds(t', n, f);
      }
    }
  }

  // ---------------------------------------------------------------- how long a file stays open

  /** n holds f at every point. */
  predicate HeldThroughout(t: Table, requests: seq<Request>, n: Name, f: int)
    decreases |requests|
  {
    Holds(t, n, f) && (requests != [] ==> HeldThroughout(Serve(t, requests[0]), requests[1..], n, f))
  }

  /** Some close gets to n: it arrives when n is open and was the last to be opened on the descriptor it names. */
  predicate CloseReaches(t: Table, requests: seq<Request>, n: Name)
    decreases |requests|
  {
    requests != [] &&
    ((requests[0].Close? && Reached(t, requests[0].fd) == Some(n))
     || CloseReaches(Serve(t, requests[0]), requests[1..], n))
  }

  predicate Closes(requests: seq<Request>, f: int) {
    exists i :: 0 <= i < |requests| && requests[i].Close? && requests[i].fd == f
  }

  /** f is the only descriptor that a close can name to get to n. */
  predicate SoleDescriptor(t: Table, n: Name, f: int) {
    forall g :: g in t.index && t.index[g] == n ==> g == f
  }

  /** A file that holds a descriptor goes on holding it exactly as long as no close gets to it. */
  lemma {:induction false} HeldUntilReached(t: Table, requests: seq<Request>, n: Name, f: int)
    requires TableOk(t) && Holds(t, n, f)
    ensures HeldThroughout(t, requests, n, f) <==> !CloseReaches(t, requests, n)
    ensures HeldThroughout(t, requests, n, f) ==> Holds(Served(t, requests), n, f) && f in Served(t, requests).openFds
    decreases |requests|
  {
    assert IsOpen(t, n);
    if requests != [] {
      var t' := Serve(t, requests[0]);
      ServeKeepsOk(t, requests[0]);
      assert Served(t, requests) == Served(t', requests[1..]);
      if Holds(t', n, f) {
        HeldUntilReached(t', requests[1..], n, f);
      }
    }
  }

  /** If no other descriptor leads to the file, only a close of the one it holds ends that. */
  lemma {:induction false} SoleUntilClosed(t: Table, requests: seq<Request>, n: Name, f: int)
    requires TableOk(t) && Holds(t, n, f) && SoleDescriptor(t, n, f)
    ensures HeldThroughout(t, requests, n, f) <==> !Closes(requests, f)
    decreases |requests|
  {
    assert IsOpen(t, n);
    if requests != [] {
      var t', rest := Serve(t, requests[0]), requests[1..];
      assert requests == [requests[0]] + rest;
      ServeKeepsOk(t, requests[0]);
      if Holds(t', n, f) {
        SoleUntilClosed(t', rest, n, f);
      }
    }
  }

  /**
   A file is safe from closes of other descriptors exactly if no other descriptor still leads to it, that is, if
   it was last to be opened on none but the one it holds.
   */
  lemma SafeExactlyWhenSole(t: Table, n: Name, f: int)
    requires TableOk(t) && Holds(t, n, f)
    ensures (forall requests :: !Closes(requests, f) ==> HeldThroughout(t, requests, n, f)) <==> SoleDescriptor(t, n, f)
  {
    if SoleDescriptor(t, n, f) {
      forall requests | !Closes(requests, f) ensures HeldThroughout(t, requests, n, f) {
        SoleUntilClosed(t, requests, n, f);
      }
    } else {
      assert IsOpen(t, n);
      var g :| g in t.index && t.index[g] == n && g != f;
      var requests := [Close(g, 0)];
      assert !Closes(requests, f);
      assert !HeldThroughout(t, requests, n, f);
    }
  }

  /**
   An open of a closed file on a free descriptor, anywhere in a sequence of requests: the file then holds the
   descriptor, exactly until a close gets to it; on its first open that is exactly until its descriptor is closed.
   */
  lemma OpenLasts(t: Table, before: seq<Request>, n: Name, f: nat, after: seq<Request>)
    requires TableOk(t) && !IsOpen(Served(t, before), n) && f !in Served(t, before).openFds
    ensures var now := Served(t, before + [Open(n, f)]);
            && Holds(now, n, f) && f in now.openFds
            && (HeldThroughout(now, after, n, f) <==> !CloseReaches(now, after, n))
            && (!CloseReaches(now, after, n) ==>
                  var end := Served(t, before + [Open(n, f)] + after); Holds(end, n, f) && f in end.openFds)
            && ((forall g :: g in Served(t, before).index ==> Served(t, before).index[g] != n) ==>
                  (HeldThroughout(now, after, n, f) <==> !Closes(after, f)))
  {
    var was := Served(t, before);
    var now := Served(t, before + [Open(n, f)]);
    ServedOk(t, before);
    ServedAppend(t, before, [Open(n, f)]);
    assert [Open(n, f)][1..] == [];
    assert now == Serve(was, Open(n, f));
    ServeKeepsOk(was, Open(n, f));
    OpenEffect(was, n, f);
    HeldUntilReached(now, after, n, f);
    ServedAppend(t, before + [Open(n, f)], after);
    if forall g :: g in was.index ==> was.index[g] != n {
      SoleUntilClosed(now, after, n, f);
    }
  }

  // ---------------------------------------------------------------- how long a descriptor stays closed

  predicate FreeThroughout(t: Table, requests: seq<Request>, f: int)
    decreases |requests|
  {
    f !in t.openFds && (requests != [] ==> FreeThroughout(Serve(t, requests[0]), requests[1..], f))
  }

  /** Some open of a closed file is answered with f. */
  predicate OpenedOn(t: Table, requests: seq<Request>, f: int)
    decreases |requests|
  {
    requests != [] &&
    ((requests[0].Open? && !IsOpen(t, requests[0].name) && f >= 0 && OpenAnswer(t.openFds, requests[0].osFd) == f)
     || OpenedOn(Serve(t, requests[0]), requests[1..], f))
  }

  predicate ClosedThroughout(t: Table, requests: seq<Request>, n: Name)
    decreases |requests|
  {
    !IsOpen(t, n) && (requests != [] ==> ClosedThroughout(Serve(t, requests[0]), requests[1..], n))
  }

  /** Some open of n gets a descriptor. */
  predicate Reopened(t: Table, requests: seq<Request>, n: Name)
    decreases |requests|
  {
    requests != [] &&
    ((requests[0].Open? && requests[0].name == n && OpenAnswer(t.openFds, requests[0].osFd) >= 0)
     || Reopened(Serve(t, requests[0]), requests[1..], n))
  }

  lemma {:induction false} FreeInTheEnd(t: Table, requests: seq<Request>, f: int)
    requires FreeThroughout(t, requests, f)
    ensures f !in Served(t, requests).openFds
    decreases |requests|
  {
    if requests != [] {
      FreeInTheEnd(Serve(t, requests[0]), requests[1..], f);
    }
  }

  lemma {:induction false} FreeUntilOpened(t: Table, requests: seq<Request>, f: int)
    requires TableOk(t) && f !in t.openFds
    ensures FreeThroughout(t, requests, f) <==> !OpenedOn(t, requests, f)
    decreases |requests|
  {
    if requests != [] {
      var t' := Serve(t, requests[0]);
      ServeKeepsOk(t, requests[0]);
      if f !in t'.openFds {
        FreeUntilOpened(t', requests[1..], f);
      }
    }
  }

  lemma {:induction false} ClosedInTheEnd(t: Table, requests: seq<Request>, n: Name)
    requires ClosedThroughout(t, requests, n)
    ensures !IsOpen(Served(t, requests), n)
    decreases |requests|
  {
    if requests != [] {
      ClosedInTheEnd(Serve(t, requests[0]), requests[1..], n);
    }
  }

  lemma {:induction false} ClosedUntilReopened(t: Table, requests: seq<Request>, n: Name)
    requires TableOk(t) && !IsOpen(t, n)
    ensures ClosedThroughout(t, requests, n) <==> !Reopened(t, requests, n)
    decreases |requests|
  {
    if requests != [] {
      var t' := Serve(t, requests[0]);
      ServeKeepsOk(t, requests[0]);
      if !IsOpen(t', n) {
        ClosedUntilReopened(t', requests[1..], n);
      }
    }
  }

  /**
   A close of a held descriptor, anywhere in a sequence of requests: the descriptor is then free exactly until an
   open is answered with it, and its file closed exactly until it is opened again.
   */
  lemma CloseLasts(t: Table, before: seq<Request>, n: Name, f: int, closed: int, after: seq<Request>)
    requires TableOk(t) && Holds(Served(t, before), n, f)
    ensures var done := Served(t, before + [Close(f, closed)]);
            var end := Served(t, before + [Close(f, closed)] + after);
            && (FreeThroughout(done, after, f) <==> !OpenedOn(done, after, f))
            && (!OpenedOn(done, after, f) ==> f !in end.openFds)
            && (ClosedThroughout(done, after, n) <==> !Reopened(done, after, n))
            && (!Reopened(done, after, n) ==> !IsOpen(end, n))
  {
    var was := Served(t, before);
    var done := Served(t, before + [Close(f, closed)]);
    ServedOk(t, before);
    ServedAppend(t, before, [Close(f, closed)]);
    assert [Close(f, closed)][1..] == [];
    assert done == Serve(was, Close(f, closed));
    ServeKeepsOk(was, Close(f, closed));
    CloseEffect(was, n, f, closed);
    FreeUntilOpened(done, after, f);
    ClosedUntilReopened(done, after, n);
    ServedAppend(t, before + [Close(f, closed)], after);
    if FreeThroughout(done, after, f) {
      FreeInTheEnd(done, after, f);
    }
    if ClosedThroughout(done, after, n) {
      ClosedInTheEnd(done, after, n);
    }
  }
}

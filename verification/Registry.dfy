/**
 The file registry: FileSupervisor.cpp with the open/close life cycle of FileAccesser.cpp.

 Calls of the supervisor are atomic here (LockProtocol has their interleavings).  Inserting under a missing key
 and looking up inside setFileDescriptor do what the code evidently intends.  The answers of the operating
 system's open and close are parameters; the system never hands out a descriptor that is already open.
 */
module Registry {

  import opened Options
  import opened Messages
  import opened LockProtocol
  import opened FileClients
  import opened DescriptorTable

  // ---------------------------------------------------------------- one accessor as a value

  /** opens and closes count the successful open calls and the close calls made for this accessor. */
  datatype Acc = Acc(fd: int, owners: int, isOpen: bool, opens: nat, closes: nat)

  const NEW_ACC := Acc(-1, 0, false, 0, 0)

  /** i_open; strict is the intended test for a failed open, otherwise the test is fdTmp < -1. */
  function AccOpen(a: Acc, osFd: int, strict: bool): Acc {
    if a.isOpen then a
    else if osFd < (if strict then 0 else -1) then a
    else a.(fd := osFd, owners := a.owners + 1, isOpen := true, opens := a.opens + if osFd >= 0 then 1 else 0)
  }

  /** rw_close behind CHECKOPEN; guarded is the intended test of the field, otherwise the test always passes. */
  function AccClose(a: Acc, guarded: bool): Acc {
    if guarded && !a.isOpen then a
    else if a.owners - 1 > 0 then a.(owners := a.owners - 1)
    else a.(owners := 0, isOpen := false, closes := a.closes + 1)
  }

  datatype Event = OpenEvent(osFd: int) | CloseEvent

  predicate EventOk(e: Event) {
    e.OpenEvent? ==> e.osFd >= -1
  }

  function AccStep(a: Acc, e: Event, strict: bool, guarded: bool): Acc {
    match e
    case OpenEvent(osFd) => AccOpen(a, osFd, strict)
    case CloseEvent => AccClose(a, guarded)
  }

  function AccAfter(a: Acc, events: seq<Event>, strict: bool, guarded: bool): Acc {
    if events == [] then a
    else AccStep(AccAfter(a, events[..|events| - 1], strict, guarded), events[|events| - 1], strict, guarded)
  }

  predicate Balanced(a: Acc) {
    && 0 <= a.owners <= 1
    && (a.isOpen <==> a.owners == 1)
    && a.opens - a.closes == a.owners
  }

  /** Closing an accessor that is not open, or opening one while the system refuses. */
  predicate Offends(a: Acc, e: Event) {
    !a.isOpen && (e.CloseEvent? || e.osFd == -1)
  }

  function Offences(a: Acc, events: seq<Event>): nat {
    if events == [] then 0
    else
      var front := events[..|events| - 1];
      Offences(a, front) + (if Offends(AccAfter(a, front, false, false), events[|events| - 1]) then 1 else 0)
  }

  /**
   As intended, opens and closes stay in balance over every sequence of calls: there is no double close and
   nothing stays open behind the accessor's back.
   */
  lemma {:induction false} BalanceAsMeant(events: seq<Event>)
    requires forall i :: 0 <= i < |events| ==> EventOk(events[i])
    ensures Balanced(AccAfter(NEW_ACC, events, true, true))
  {
    if events != [] {
      BalanceAsMeant(events[..|events| - 1]);
    }
  }

  /**
   As written, each offending call costs one close too many (or one open too few), for good: the accessor is
   balanced after a sequence of calls exactly when no call in it offended.
   */
  lemma {:induction false} BalanceAsWritten(events: seq<Event>)
    requires forall i :: 0 <= i < |events| ==> EventOk(events[i])
    ensures var a := AccAfter(NEW_ACC, events, false, false);
            && 0 <= a.owners <= 1 && (a.isOpen <==> a.owners == 1)
            && a.opens - a.closes == a.owners - Offences(NEW_ACC, events)
            && (Balanced(a) <==> Offences(NEW_ACC, events) == 0)
  {
    if events != [] {
      BalanceAsWritten(events[..|events| - 1]);
    }
  }

  /** A close without an open, and a refused open, each put a new accessor out of balance. */
  lemma UnbalancedAsWritten()
    ensures !Balanced(AccAfter(NEW_ACC, [CloseEvent], false, false))
    ensures !Balanced(AccAfter(NEW_ACC, [OpenEvent(-1)], false, false))
  {
  }

  // ---------------------------------------------------------------- the objects

  class Kernel {
    var openFds: set<int>

    constructor ()
      ensures openFds == {}
    {
      openFds := {};
    }
  }

  class FileAccessor {
    const fileName: seq<Byte>
    var fd: int
    var owners: int
    var isOpen: bool
    var opens: nat
    var closes: nat

    constructor (fileName: seq<Byte>)
      ensures this.fileName == fileName && Value() == NEW_ACC
    {
      this.fileName := fileName;
      fd, owners, isOpen, opens, closes := -1, 0, false, 0, 0;
    }

    function Value(): Acc
      reads this
    {
      Acc(fd, owners, isOpen, opens, closes)
    }

    predicate HoldsOpen(f: int)
      reads this
    {
      isOpen && fd == f
    }

    function Holding(): Option<int>
      reads this
    {
      if isOpen then Some(fd) else None
    }

    /** i_open, as called by rw_open.  osFd is what the system's open answers if it is asked. */
    method IOpen(sup: FileSupervisor, k: Kernel, osFd: int, strict: bool, errno: int, text: seq<Byte>)
      returns (m: Message)
      requires sup.Agrees(k)
      requires osFd >= -1 && osFd !in k.openFds
      modifies this, sup, k
      ensures Value() == AccOpen(old(Value()), osFd, strict)
      ensures k.openFds == old(k.openFds) + if !old(isOpen) && osFd >= 0 then {osFd} else {}
      ensures old(isOpen) || !isOpen ==>
                sup.filesByInt == old(sup.filesByInt) && sup.filesByString == old(sup.filesByString)
      ensures !old(isOpen) && isOpen ==>
                && fileName in sup.filesByString
                && sup.filesByInt == old(sup.filesByInt)[osFd := sup.filesByString[fileName]]
                && (sup.filesByInt[osFd] == this <==> old(sup.Registered(this)))
                && (fileName in old(sup.filesByString) ==> sup.filesByString == old(sup.filesByString))
      ensures m == if old(isOpen) then Msg(ERR, fd, Bytes("file already opened, please use the supplied identifier"))
                   else if !isOpen then Msg(FAIL, errno, text)
                   else Msg(OK, osFd, Bytes("File was successfully opened"))
      ensures sup.Agrees(k) <==> old(isOpen) || strict || osFd >= 0 || !old(sup.Registered(this))
    {
      if isOpen {
        return Msg(ERR, fd, Bytes("file already opened, please use the supplied identifier"));
      }
      var fdTmp := osFd;
      if fdTmp >= 0 {
        k.openFds := k.openFds + {fdTmp};
      }
      if fdTmp < (if strict then 0 else -1) {
        return Msg(FAIL, errno, text);
      }
      if fdTmp >= 0 {
        opens := opens + 1;
      }
      Adopt(sup, k, fdTmp);
      m := Msg(OK, fdTmp, Bytes("File was successfully opened"));
    }

    /** rw_open; calls are the lock calls it makes, the supervisor's included, for the accessor with handle h. */
    method RwOpen(sup: FileSupervisor, k: Kernel, osFd: int, strict: bool, errno: int, text: seq<Byte>,
                  hs: Handles, h: nat, v: Variant) returns (m: Message, calls: seq<Op>)
      requires sup.Agrees(k)
      requires osFd >= -1 && osFd !in k.openFds
      requires h < |hs.locks|
      modifies this, sup, k
      ensures Value() == AccOpen(old(Value()), osFd, strict)
      ensures calls == CallOps(FileClients.RwOpen(h, !old(isOpen) && isOpen), hs, v)
      ensures var l, s := hs.locks[h], hs.sup;
              calls == if old(isOpen) || !isOpen then [StartWrite(l), EndWrite(l)]
                       else if v.lookupUnlocked then [StartWrite(l), StartWrite(s), EndWrite(s), EndWrite(l)]
                       else [StartWrite(l), StartWrite(s), StartRead(s), EndRead(s), EndWrite(s), EndWrite(l)]
      ensures sup.Agrees(k) <==> old(isOpen) || strict || osFd >= 0 || !old(sup.Registered(this))
    {
      var wasOpen := isOpen;
      calls := [StartWrite(hs.locks[h])];
      m := IOpen(sup, k, osFd, strict, errno, text);
      if !wasOpen && isOpen {
        calls := calls + RegisterOps(hs.sup, v);
      }
      calls := calls + [EndWrite(hs.locks[h])];
    }

    /** The rest of i_open once the descriptor has passed the test. */
    method Adopt(sup: FileSupervisor, k: Kernel, fdTmp: int)
      requires !isOpen && fdTmp >= -1
      requires sup.AgreesOn(k.openFds - {fdTmp}) && (fdTmp in k.openFds <==> fdTmp >= 0)
      modifies this, sup
      ensures isOpen && fd == fdTmp && owners == old(owners) + 1 && opens == old(opens) && closes == old(closes)
      ensures fileName in sup.filesByString
      ensures sup.filesByInt == old(sup.filesByInt)[fdTmp := sup.filesByString[fileName]]
      ensures sup.filesByInt[fdTmp] == this <==> old(sup.Registered(this))
      ensures fileName in old(sup.filesByString) ==> sup.filesByString == old(sup.filesByString)
      ensures sup.Agrees(k) <==> fdTmp >= 0 || !old(sup.Registered(this))
    {
      fd := fdTmp;
      sup.SetFileDescriptor(fileName, fd);
      isOpen := true;
      owners := owners + 1;
      assert sup.filesByString[fileName] == this <==> old(sup.Registered(this));
      forall n | n in sup.filesByString && sup.filesByString[n] != this
        ensures sup.AccessorAgrees(sup.filesByString[n], k.openFds)
      {
        if n in old(sup.filesByString) {
          assert old(sup.AccessorAgrees(sup.filesByString[n], k.openFds - {fdTmp}));
        }
      }
      assert old(sup.Registered(this)) ==> (sup.AccessorAgrees(this, k.openFds) <==> fdTmp >= 0);
    }

    /**
     rw_close with its CHECKOPEN, around i_close.  closed is what the system's close answers if it is asked;
     calls are the lock calls made on lock l.
     */
    method RwClose(sup: FileSupervisor, k: Kernel, closed: int, guarded: bool, errno: int, text: seq<Byte>, l: LockId)
      returns (m: Message, calls: seq<Op>)
      requires sup.Agrees(k) && sup.Registered(this)
      modifies this, k
      ensures Value() == AccClose(old(Value()), guarded)
      ensures k.openFds == if guarded && !old(isOpen) then old(k.openFds) else old(k.openFds) - {fd}
      ensures m == if guarded && !old(isOpen) then Msg(ERR, 2, Bytes("File not opened"))
                   else if closed < 0 then Msg(FAIL, errno, text) else Msg(OK, 0, Bytes("file closed"))
      ensures calls == WriteOps(l, !guarded || old(isOpen))
      ensures sup.Agrees(k) <==> guarded || old(isOpen)
                                 || !(exists b :: sup.Registered(b) && old(b.HoldsOpen(this.fd)))
    {
      calls := [];
      if guarded && !isOpen {
        return Msg(ERR, 2, Bytes("File not opened")), calls;
      }
      calls := calls + [StartWrite(l)];
      m := IClose(sup, k, closed, errno, text);
      calls := calls + [EndWrite(l)];
    }

    /** i_close. */
    method IClose(sup: FileSupervisor, k: Kernel, closed: int, errno: int, text: seq<Byte>) returns (m: Message)
      requires sup.Agrees(k) && sup.Registered(this)
      modifies this, k
      ensures Value() == AccClose(old(Value()), false)
      ensures k.openFds == old(k.openFds) - {fd}
      ensures m == if closed < 0 then Msg(FAIL, errno, text) else Msg(OK, 0, Bytes("file closed"))
      ensures sup.Agrees(k) <==> old(isOpen) || !(exists b :: sup.Registered(b) && old(b.HoldsOpen(this.fd)))
    {
      assert sup.AccessorAgrees(sup.filesByString[fileName], k.openFds);
      owners := owners - 1;
      if owners > 0 {
        return Msg(OK, 0, Bytes("file closed"));
      }
      owners := 0;
      isOpen := false;
      k.openFds := k.openFds - {fd};
      closes := closes + 1;
      m := if closed < 0 then Msg(FAIL, errno, text) else Msg(OK, 0, Bytes("file closed"));
      forall n | n in sup.filesByString
        ensures sup.AccessorAgrees(sup.filesByString[n], k.openFds)
                <==> !old(sup.filesByString[n].HoldsOpen(this.fd)) || old(isOpen)
      {
        assert old(sup.AccessorAgrees(sup.filesByString[n], k.openFds));
      }
      if exists b :: sup.Registered(b) && old(b.HoldsOpen(this.fd)) {
        var b :| sup.Registered(b) && old(b.HoldsOpen(this.fd));
        assert sup.filesByString[b.fileName] == b;
      }
    }
  }

  class FileSupervisor {
    var filesByString: map<seq<Byte>, FileAccessor>
    var filesByInt: map<int, FileAccessor>

    constructor ()
      ensures filesByString == map[] && filesByInt == map[]
    {
      filesByString, filesByInt := map[], map[];
    }

    predicate Registered(a: FileAccessor)
      reads this
    {
      a.fileName in filesByString && filesByString[a.fileName] == a
    }

    /**
     Every accessor is registered under its own name, and every accessor that is open holds a descriptor that is
     open in the system and that the descriptor index maps to it.  Other entries of the index may be stale.
     */
    ghost predicate Agrees(k: Kernel)
      reads this, k, filesByString.Values
    {
      AgreesOn(k.openFds)
    }

    ghost predicate AgreesOn(openFds: set<int>)
      reads this, filesByString.Values
    {
      && (forall n :: n in filesByString ==> filesByString[n].fileName == n)
      && (forall n :: n in filesByString ==> AccessorAgrees(filesByString[n], openFds))
      && (forall f :: f in filesByInt ==> Registered(filesByInt[f]))
    }

    predicate AccessorAgrees(a: FileAccessor, openFds: set<int>)
      reads this, a
    {
      && a.owners == (if a.isOpen then 1 else 0)
      && (a.isOpen ==> a.fd in openFds && a.fd in filesByInt && filesByInt[a.fd] == a)
    }

    /** The registered names, the descriptors they hold, and the two indexes by name. */
    ghost function TableOf(k: Kernel): Table
      reads this, k, filesByString.Values
    {
      Table(map n | n in filesByString :: filesByString[n].Holding(), map f | f in filesByInt :: filesByInt[f].fileName,
            k.openFds)
    }

    method GetSyncFileAccessorStr(name: seq<Byte>) returns (a: FileAccessor)
      modifies this`filesByString
      ensures name in old(filesByString) ==> filesByString == old(filesByString) && a == filesByString[name]
      ensures name !in old(filesByString) ==>
                fresh(a) && a.fileName == name && a.Value() == NEW_ACC && filesByString == old(filesByString)[name := a]
    {
      if name in filesByString {
        return filesByString[name];
      }
      AddFileAccessor(name);
      a := filesByString[name];
    }

    method AddFileAccessor(name: seq<Byte>)
      modifies this`filesByString
      ensures name in filesByString && fresh(filesByString[name])
      ensures filesByString[name].fileName == name && filesByString[name].Value() == NEW_ACC
      ensures filesByString == old(filesByString)[name := filesByString[name]]
    {
      var a := new FileAccessor(name);
      filesByString := filesByString[name := a];
    }

    /** Inserts under the descriptor the accessor registered for the name, registering a new one if there is none. */
    method SetFileDescriptor(name: seq<Byte>, fd: int)
      modifies this
      ensures name in filesByString && filesByInt == old(filesByInt)[fd := filesByString[name]]
      ensures name in old(filesByString) ==> filesByString == old(filesByString)
      ensures name !in old(filesByString) ==>
                && fresh(filesByString[name])
                && filesByString[name].fileName == name && filesByString[name].Value() == NEW_ACC
                && filesByString == old(filesByString)[name := filesByString[name]]
    {
      var a := GetSyncFileAccessorStr(name);
      filesByInt := filesByInt[fd := a];
    }

    /**
     The lookup by descriptor returns the accessor that holds the descriptor open whenever there is one, and
     the returned accessor holds it open only in that case: stale entries never hide a live one.
     */
    method GetSyncFileAccessorInt(k: Kernel, fd: int) returns (r: Option<FileAccessor>)
      requires Agrees(k)
      ensures forall a :: Registered(a) && a.HoldsOpen(fd) ==> r == Some(a)
      ensures r.Some? <==> fd in filesByInt
      ensures r.Some? ==> r.value == filesByInt[fd] && Registered(r.value)
      ensures (exists a :: Registered(a) && a.HoldsOpen(fd)) <==> r.Some? && r.value.HoldsOpen(fd)
    {
      if fd in filesByInt {
        return Some(filesByInt[fd]);
      }
      r := None;
    }
  }

  // ---------------------------------------------------------------- where agreement is lost as written

  /**
   As written, a file that is closed twice takes the descriptor away from another one that was opened on it in
   between: two files, one descriptor, and the second stays open on a descriptor that the system has closed.
   */
  method CloseTwice(a: seq<Byte>, b: seq<Byte>, fd: nat, errno: int, text: seq<Byte>, l: LockId)
    returns (sup: FileSupervisor, k: Kernel)
    requires a != b
    ensures b in sup.filesByString && sup.filesByString[b].HoldsOpen(fd) && fd !in k.openFds
    ensures !sup.Agrees(k)
  {
    var x;
    sup, k, x := OpenAndClose(a, fd, errno, text, l);
    var y := sup.GetSyncFileAccessorStr(b);
    var m := y.IOpen(sup, k, fd, false, errno, text);
    assert sup.Registered(y) && y.HoldsOpen(fd) && sup.Registered(x) && x.fd == fd && x != y;
    var calls;
    m, calls := x.RwClose(sup, k, 0, false, errno, text, l);
  }

  method OpenAndClose(name: seq<Byte>, fd: nat, errno: int, text: seq<Byte>, l: LockId)
    returns (sup: FileSupervisor, k: Kernel, x: FileAccessor)
    ensures fresh(sup) && fresh(k) && fresh(x) && sup.Agrees(k) && k.openFds == {}
    ensures sup.filesByString == map[name := x] && x.fileName == name && x.fd == fd && !x.isOpen
  {
    sup := new FileSupervisor();
    k := new Kernel();
    x := sup.GetSyncFileAccessorStr(name);
    var m := x.IOpen(sup, k, fd, false, errno, text);
    var calls;
    m, calls := x.RwClose(sup, k, 0, false, errno, text, l);
  }

  /** As written, a registered accessor whose open the system refuses is marked open without a descriptor. */
  method OpenRefused(name: seq<Byte>, errno: int, text: seq<Byte>) returns (sup: FileSupervisor, k: Kernel)
    ensures name in sup.filesByString && sup.filesByString[name].HoldsOpen(-1) && k.openFds == {}
    ensures !sup.Agrees(k)
  {
    sup := new FileSupervisor();
    k := new Kernel();
    var x := sup.GetSyncFileAccessorStr(name);
    var m := x.IOpen(sup, k, -1, false, errno, text);
  }

  // ---------------------------------------------------------------- any sequence of requests

  /** A lookup by name registers the name if need be and changes nothing else. */
  method LookupByName(sup: FileSupervisor, k: Kernel, name: seq<Byte>) returns (a: FileAccessor)
    requires sup.Agrees(k)
    modifies sup`filesByString
    ensures sup.Agrees(k) && sup.Registered(a) && a.fileName == name
    ensures fresh(sup.filesByString.Values - old(sup.filesByString.Values))
    ensures sup.TableOf(k) == Register(old(sup.TableOf(k)), name)
  {
    a := sup.GetSyncFileAccessorStr(name);
    assert sup.filesByString[name] == a;
  }

  method OpenAccessor(sup: FileSupervisor, k: Kernel, a: FileAccessor, osFd: int, errno: int, text: seq<Byte>)
    returns (m: Message)
    requires sup.Agrees(k) && -1 !in k.openFds && sup.Registered(a)
    modifies a, sup, k
    ensures sup.Agrees(k) && -1 !in k.openFds && sup.filesByString == old(sup.filesByString)
    ensures sup.TableOf(k) == Serve(old(sup.TableOf(k)), Open(a.fileName, osFd))
  {
    ghost var t := sup.TableOf(k);
    ghost var f := OpenAnswer(k.openFds, osFd);
    ghost var gets := !a.isOpen && f >= 0;
    m := a.IOpen(sup, k, OpenAnswer(k.openFds, osFd), true, errno, text);
    assert forall n :: n in sup.filesByString && n != a.fileName ==> sup.filesByString[n] != a;
    assert k.openFds == if gets then t.openFds + {f} else t.openFds;
    assert sup.TableOf(k).files == if gets then t.files[a.fileName := Some(f)] else t.files;
    assert sup.TableOf(k).index == if gets then t.index[f := a.fileName] else t.index;
  }

  /** An open by name: the accessor is looked up, made if need be, and opened. */
  method OpenByName(sup: FileSupervisor, k: Kernel, name: seq<Byte>, osFd: int, errno: int, text: seq<Byte>)
    returns (m: Message)
    requires sup.Agrees(k) && -1 !in k.openFds
    modifies sup, k, sup.filesByString.Values
    ensures sup.Agrees(k) && -1 !in k.openFds
    ensures fresh(sup.filesByString.Values - old(sup.filesByString.Values))
    ensures sup.TableOf(k) == Serve(old(sup.TableOf(k)), Open(name, osFd))
  {
    var a := LookupByName(sup, k, name);
    m := OpenAccessor(sup, k, a, osFd, errno, text);
  }

  /** A close by descriptor: the accessor last opened on it is looked up and closed. */
  method CloseByFd(sup: FileSupervisor, k: Kernel, fd: int, closed: int, errno: int, text: seq<Byte>)
    requires sup.Agrees(k) && -1 !in k.openFds
    modifies sup, k, sup.filesByString.Values
    ensures sup.Agrees(k) && -1 !in k.openFds
    ensures sup.filesByString == old(sup.filesByString)
    ensures sup.TableOf(k) == Serve(old(sup.TableOf(k)), Close(fd, closed))
  {
    var r := sup.GetSyncFileAccessorInt(k, fd);
    if r.Some? {
      assert sup.filesByString[r.value.fileName] == r.value;
      var m, calls := r.value.RwClose(sup, k, closed, true, errno, text, 0);
    }
  }

  /**
   Any sequence of lookups, opens by name and closes by descriptor, on any files, with the intended tests, has
   the effect that DescriptorTable states on the requests alone, and keeps the two indexes in agreement with the
   descriptors that are open.
   */
  method ServeAll(sup: FileSupervisor, k: Kernel, requests: seq<Request>, errno: int, text: seq<Byte>)
    requires sup.Agrees(k) && -1 !in k.openFds
    modifies sup, k, sup.filesByString.Values
    ensures sup.Agrees(k) && TableOk(sup.TableOf(k))
    ensures sup.TableOf(k) == Served(old(sup.TableOf(k)), requests)
    ensures forall a, b :: sup.Registered(a) && sup.Registered(b) && a.isOpen && b.isOpen && a.fd == b.fd ==> a == b
    ensures forall a :: sup.Registered(a) && a.isOpen ==>
              a.fd in k.openFds && a.fd in sup.filesByInt && sup.filesByInt[a.fd] == a
  {
    ghost var was := sup.TableOf(k);
    for i := 0 to |requests|
      invariant sup.Agrees(k) && -1 !in k.openFds
      invariant fresh(sup.filesByString.Values - old(sup.filesByString.Values))
      invariant Served(sup.TableOf(k), requests[i..]) == Served(was, requests)
    {
      assert requests[i..][0] == requests[i] && requests[i..][1..] == requests[i + 1..];
      match requests[i]
      case Lookup(name) =>
        var a := LookupByName(sup, k, name);
      case Open(name, osFd) =>
        var m := OpenByName(sup, k, name, osFd, errno, text);
      case Close(fd, closed) =>
        CloseByFd(sup, k, fd, closed, errno, text);
    }
    forall a | sup.Registered(a) && a.isOpen
      ensures a.fd in k.openFds && a.fd in sup.filesByInt && sup.filesByInt[a.fd] == a
    {
      assert sup.AccessorAgrees(sup.filesByString[a.fileName], k.openFds);
    }
  }
}

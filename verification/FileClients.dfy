/**
 The lock calls made by the public operations of FileAccessor, SyncFileAccessor and FileSupervisor.

 An accessor is a handle; its lock is looked up in a table.  Copying an accessor appends a handle for the same
 lock, as the copy constructor of readerWriter does.  The supervisor has one lock of its own, taken inside the
 write section of an accessor by rw_open.
 */
module FileClients {

  import opened Options
  import opened LockProtocol
  import opened LockSafety
  import opened LockTheorems
  import opened LockLiveness

  /** Two places where the code leaves its evident intent; the model has both forms. */
  datatype Variant = Variant(
    releaseOnFail: bool,   // read_w releases its read section before it returns FAIL
    lookupUnlocked: bool   // setFileDescriptor looks the accessor up without taking the lock again
  )

  const AS_WRITTEN := Variant(false, false)
  const AS_MEANT := Variant(true, true)

  datatype Call =
    | RwOpen(h: nat, registers: bool)  // registers: i_open got a descriptor and reports it to the supervisor
    | RwClose(h: nat, passes: bool)    // passes: the CHECKOPEN test lets the call through
    | WriteW(h: nat, passes: bool)
    | SeekW(h: nat, passes: bool)
    | ReadW(h: nat, passes: bool)
    | SyncReadW(h: nat, passes: bool, inner: bool, fails: bool)  // inner: so does the test in FileAccessor::read_w
    | GetByName(hit: bool)
    | GetByFd

  /** The accessors of the process: handle h uses lock locks[h], and sup is the supervisor's own lock. */
  datatype Handles = Handles(locks: seq<LockId>, sup: LockId)

  /** readerWriter(const readerWriter& other): the copy uses the same mutex, condition and counter. */
  function Copy(hs: Handles, h: nat): Handles
    requires h < |hs.locks|
  {
    hs.(locks := hs.locks + [hs.locks[h]])
  }

  /** Any sequence of copies: the i-th makes handle |hs.locks| + i out of sources[i], itself a copy or not. */
  function CopyAll(hs: Handles, sources: seq<nat>): (r: Handles)
    requires SourcesExist(|hs.locks|, sources)
    ensures |r.locks| == |hs.locks| + |sources| && r.sup == hs.sup
  {
    var n := |sources|;
    if n == 0 then hs else Copy(CopyAll(hs, sources[..n - 1]), sources[n - 1])
  }

  predicate SourcesExist(originals: nat, sources: seq<nat>) {
    forall i :: 0 <= i < |sources| ==> sources[i] < originals + i
  }

  /** The original that handle h is a copy of a copy of ... */
  function Origin(originals: nat, sources: seq<nat>, h: nat): (o: nat)
    requires SourcesExist(originals, sources) && h < originals + |sources|
    ensures o < originals
  {
    if h < originals then h else Origin(originals, sources, sources[h - originals])
  }

  predicate HandlesOk(hs: Handles) {
    forall h :: 0 <= h < |hs.locks| ==> hs.locks[h] < hs.sup
  }

  function LookupOps(sup: LockId, hit: bool): seq<Op> {
    [StartRead(sup), EndRead(sup)] + if hit then [] else [StartWrite(sup), EndWrite(sup)]
  }

  function RegisterOps(sup: LockId, v: Variant): seq<Op> {
    if v.lookupUnlocked then [StartWrite(sup), EndWrite(sup)]
    else [StartWrite(sup)] + LookupOps(sup, true) + [EndWrite(sup)]
  }

  function ReadOps(l: LockId, passes: bool): seq<Op> {
    if passes then [StartRead(l), EndRead(l)] else []
  }

  function WriteOps(l: LockId, passes: bool): seq<Op> {
    if passes then [StartWrite(l), EndWrite(l)] else []
  }

  function SyncReadOps(l: LockId, inner: bool, fails: bool, v: Variant): seq<Op> {
    [StartRead(l)] + ReadOps(l, inner) + [if fails && !v.releaseOnFail then ReturnFail(l) else EndRead(l)]
  }

  function CallOps(c: Call, hs: Handles, v: Variant): seq<Op>
    requires c.GetByName? || c.GetByFd? || c.h < |hs.locks|
  {
    match c
    case RwOpen(h, registers) =>
      [StartWrite(hs.locks[h])] + (if registers then RegisterOps(hs.sup, v) else []) + [EndWrite(hs.locks[h])]
    case RwClose(h, passes) => WriteOps(hs.locks[h], passes)
    case WriteW(h, passes) => WriteOps(hs.locks[h], passes)
    case SeekW(h, passes) => WriteOps(hs.locks[h], passes)
    case ReadW(h, passes) => ReadOps(hs.locks[h], passes)
    case SyncReadW(h, passes, inner, fails) => if passes then SyncReadOps(hs.locks[h], inner, fails, v) else []
    case GetByName(hit) => LookupOps(hs.sup, hit)
    case GetByFd => [StartRead(hs.sup), EndRead(hs.sup)]
  }

  predicate CallsOk(calls: seq<Call>, hs: Handles) {
    forall i :: 0 <= i < |calls| ==> calls[i].GetByName? || calls[i].GetByFd? || calls[i].h < |hs.locks|
  }

  function ProgramOf(calls: seq<Call>, hs: Handles, v: Variant): seq<Op>
    requires CallsOk(calls, hs)
  {
    if calls == [] then [] else CallOps(calls[0], hs, v) + ProgramOf(calls[1..], hs, v)
  }

  // ---------------------------------------------------------------- the locks that each call takes

  /** A replicated read of l that is let through and refused. */
  predicate FailsOn(c: Call, hs: Handles, l: LockId) {
    c.SyncReadW? && c.passes && c.fails && c.h < |hs.locks| && hs.locks[c.h] == l
  }

  /** A call that enters a write section of l: every open, and every close, write or seek that is let through. */
  predicate WritesOn(c: Call, hs: Handles, l: LockId) {
    (c.RwOpen? || ((c.RwClose? || c.WriteW? || c.SeekW?) && c.passes)) && c.h < |hs.locks| && hs.locks[c.h] == l
  }

  /** A read of l, replicated or not, that is let through. */
  predicate ReadsOn(c: Call, hs: Handles, l: LockId) {
    (c.ReadW? || c.SyncReadW?) && c.passes && c.h < |hs.locks| && hs.locks[c.h] == l
  }

  /** An rw_open that gets a descriptor and reports it to the supervisor. */
  predicate Registers(c: Call) {
    c.RwOpen? && c.registers
  }

  /** How often call c starts to write l: on its accessor's lock, or on the supervisor's to register or to insert. */
  function WriteStarts(c: Call, hs: Handles, l: LockId): nat {
    if WritesOn(c, hs, l) || (l == hs.sup && (Registers(c) || c == GetByName(false))) then 1 else 0
  }

  /**
   How often call c starts to read l: twice if a replicated read also reads its own copy, once for any other
   read or lookup, and once in a registration that looks the name up under the lock.
   */
  function ReadStarts(c: Call, hs: Handles, v: Variant, l: LockId): nat {
    if ReadsOn(c, hs, l) then (if c.SyncReadW? && c.inner then 2 else 1)
    else if l == hs.sup && (c.GetByName? || c.GetByFd? || (Registers(c) && !v.lookupUnlocked)) then 1
    else 0
  }

  function Count(prog: seq<Op>, op: Op): nat {
    if prog == [] then 0 else (if prog[0] == op then 1 else 0) + Count(prog[1..], op)
  }

  lemma {:induction false} CountAppend(p: seq<Op>, q: seq<Op>, op: Op)
    ensures Count(p + q, op) == Count(p, op) + Count(q, op)
  {
    if p == [] {
      assert p + q == q;
    } else {
      assert (p + q)[1..] == p[1..] + q;
      CountAppend(p[1..], q, op);
    }
  }

  lemma {:induction false} CountInside(x: Op, p: seq<Op>, y: Op, op: Op)
    ensures Count([x] + p + [y], op) == (if x == op then 1 else 0) + Count(p, op) + (if y == op then 1 else 0)
  {
    CountAppend([x] + p, [y], op);
    CountAppend([x], p, op);
    assert [x][1..] == [] && [y][1..] == [];
  }

  lemma CountPair(x: Op, y: Op, op: Op)
    ensures Count([x, y], op) == (if x == op then 1 else 0) + (if y == op then 1 else 0)
  {
    CountInside(x, [], y, op);
    assert [x] + [] + [y] == [x, y];
  }

  lemma CountLookup(sup: LockId, hit: bool, op: Op)
    ensures Count(LookupOps(sup, hit), op)
         == (if op == StartRead(sup) || op == EndRead(sup) then 1 else 0)
            + (if !hit && (op == StartWrite(sup) || op == EndWrite(sup)) then 1 else 0)
  {
    CountPair(StartRead(sup), EndRead(sup), op);
    CountPair(StartWrite(sup), EndWrite(sup), op);
    CountAppend([StartRead(sup), EndRead(sup)], if hit then [] else [StartWrite(sup), EndWrite(sup)], op);
  }

  lemma CountRegister(sup: LockId, v: Variant, op: Op)
    ensures Count(RegisterOps(sup, v), op)
         == (if op == StartWrite(sup) || op == EndWrite(sup) then 1 else 0)
            + (if !v.lookupUnlocked && (op == StartRead(sup) || op == EndRead(sup)) then 1 else 0)
  {
    CountPair(StartWrite(sup), EndWrite(sup), op);
    CountLookup(sup, true, op);
    CountInside(StartWrite(sup), LookupOps(sup, true), EndWrite(sup), op);
  }

  /** Whether call c leaves a read section of l through its FAIL return. */
  function Leaks(c: Call, hs: Handles, v: Variant, l: LockId): nat {
    if FailsOn(c, hs, l) && !v.releaseOnFail then 1 else 0
  }

  /** How often operation op occurs in call c. */
  function Occurrences(c: Call, hs: Handles, v: Variant, op: Op): int {
    match op
    case StartWrite(l) => WriteStarts(c, hs, l)
    case EndWrite(l) => WriteStarts(c, hs, l)
    case StartRead(l) => ReadStarts(c, hs, v, l)
    case EndRead(l) => ReadStarts(c, hs, v, l) - Leaks(c, hs, v, l)
    case ReturnFail(l) => Leaks(c, hs, v, l)
  }

  lemma OpenLocks(c: Call, hs: Handles, v: Variant, op: Op)
    requires HandlesOk(hs) && c.RwOpen? && c.h < |hs.locks|
    ensures Count(CallOps(c, hs, v), op) == Occurrences(c, hs, v, op)
  {
    var a := hs.locks[c.h];
    CountRegister(hs.sup, v, op);
    CountInside(StartWrite(a), if c.registers then RegisterOps(hs.sup, v) else [], EndWrite(a), op);
  }

  lemma SyncReadLocks(c: Call, hs: Handles, v: Variant, op: Op)
    requires HandlesOk(hs) && c.SyncReadW? && c.h < |hs.locks|
    ensures Count(CallOps(c, hs, v), op) == Occurrences(c, hs, v, op)
  {
    var a := hs.locks[c.h];
    CountPair(StartRead(a), EndRead(a), op);
    CountInside(StartRead(a), ReadOps(a, c.inner), if c.fails && !v.releaseOnFail then ReturnFail(a) else EndRead(a),
                op);
  }

  lemma SimpleLocks(c: Call, hs: Handles, v: Variant, op: Op)
    requires HandlesOk(hs) && (c.RwClose? || c.WriteW? || c.SeekW? || c.ReadW?) && c.h < |hs.locks|
    ensures Count(CallOps(c, hs, v), op) == Occurrences(c, hs, v, op)
  {
    var a := hs.locks[c.h];
    CountPair(StartRead(a), EndRead(a), op);
    CountPair(StartWrite(a), EndWrite(a), op);
  }

  /** Exactly how often each call takes and gives back each lock, and when it leaves a read without doing so. */
  lemma CallLocks(c: Call, hs: Handles, v: Variant, op: Op)
    requires HandlesOk(hs) && (c.GetByName? || c.GetByFd? || c.h < |hs.locks|)
    ensures Count(CallOps(c, hs, v), op) == Occurrences(c, hs, v, op)
  {
    match c
    case RwOpen(_, _) => OpenLocks(c, hs, v, op);
    case SyncReadW(_, _, _, _) => SyncReadLocks(c, hs, v, op);
    case GetByName(hit) => CountLookup(hs.sup, hit, op);
    case GetByFd => CountPair(StartRead(hs.sup), EndRead(hs.sup), op);
    case _ => SimpleLocks(c, hs, v, op);
  }

  /** The sections that a thread is in before operation i of prog, when it starts in those of stack. */
  function SectionsAt(stack: seq<Section>, prog: seq<Op>, i: nat): seq<Section>
    requires i <= |prog|
    decreases i
  {
    if i == 0 then stack
    else
      match prog[0]
      case StartRead(l) => SectionsAt(stack + [Rd(l)], prog[1..], i - 1)
      case StartWrite(l) => SectionsAt(stack + [Wr(l)], prog[1..], i - 1)
      case _ => SectionsAt(Pop(stack), prog[1..], i - 1)
  }

  /**
   Where a call takes its locks: the supervisor's write lock inside the accessor's in an open, and inside that
   the lookup of the code as written; the local read inside the replicated one; everything else by itself.
   */
  lemma CallNesting(c: Call, hs: Handles, v: Variant, i: nat)
    requires HandlesOk(hs) && (c.GetByName? || c.GetByFd? || c.h < |hs.locks|) && i < |CallOps(c, hs, v)|
    ensures var op, inside := CallOps(c, hs, v)[i], SectionsAt([], CallOps(c, hs, v), i);
            && (op.StartWrite? ==> inside == if c.RwOpen? && op.lock == hs.sup then [Wr(hs.locks[c.h])] else [])
            && (op.StartRead? ==>
                  inside == if c.RwOpen? then [Wr(hs.locks[c.h]), Wr(hs.sup)]
                            else if c.SyncReadW? && i > 0 then [Rd(hs.locks[c.h])]
                            else [])
  {
  }

  // ---------------------------------------------------------------- the calls are well-behaved clients

  lemma {:induction false} BracketedAppend(stack: seq<Section>, p: seq<Op>, q: seq<Op>)
    requires Bracketed(stack, p) && Bracketed([], q)
    ensures Bracketed(stack, p + q)
    decreases |p|
  {
    if p == [] {
      assert p + q == q;
    } else {
      assert (p + q)[1..] == p[1..] + q;
      match p[0]
      case StartRead(l) => BracketedAppend(stack + [Rd(l)], p[1..], q);
      case StartWrite(l) => BracketedAppend(stack + [Wr(l)], p[1..], q);
      case _ => BracketedAppend(Pop(stack), p[1..], q);
    }
  }

  lemma {:induction false} OrderedAppend(stack: seq<Section>, p: seq<Op>, q: seq<Op>)
    requires Bracketed(stack, p) && Ordered(stack, p) && Ordered([], q)
    ensures Ordered(stack, p + q)
    decreases |p|
  {
    if p == [] {
      assert p + q == q;
    } else {
      assert (p + q)[1..] == p[1..] + q;
      match p[0]
      case StartRead(l) => if Wr(l) !in stack { OrderedAppend(stack + [Rd(l)], p[1..], q); }
      case StartWrite(l) => if Wr(l) !in stack { OrderedAppend(stack + [Wr(l)], p[1..], q); }
      case _ => OrderedAppend(Pop(stack), p[1..], q);
    }
  }

  /** The operations of p may happen inside x: on higher locks, or reads of the same lock inside a read. */
  predicate FitsInside(x: Section, p: seq<Op>) {
    forall i :: 0 <= i < |p| ==>
      MayEnter([x], Rd(p[i].lock)) && (p[i].StartWrite? ==> MayEnter([x], Wr(p[i].lock)))
  }

  /** Opening x at the start and closing it at the end of a bracketed program of higher locks stays well-behaved. */
  lemma {:induction false} Enclose(x: Section, stack: seq<Section>, p: seq<Op>, close: Op)
    requires close == (if x.Rd? then EndRead(x.lock) else EndWrite(x.lock)) || (x.Rd? && close == ReturnFail(x.lock))
    requires Bracketed(stack, p)
    ensures Bracketed([x] + stack, p + [close])
    ensures Ordered(stack, p) && FitsInside(x, p) ==> Ordered([x] + stack, p + [close])
    decreases |p|
  {
    if p == [] {
      assert p + [close] == [close] && [x] + stack == [x];
      assert [close][1..] == [] && Pop([x]) == [];
    } else {
      assert (p + [close])[1..] == p[1..] + [close];
      assert (p + [close])[0] == p[0];
      match p[0]
      case StartRead(l) =>
        assert ([x] + stack) + [Rd(l)] == [x] + (stack + [Rd(l)]);
        Enclose(x, stack + [Rd(l)], p[1..], close);
      case StartWrite(l) =>
        assert ([x] + stack) + [Wr(l)] == [x] + (stack + [Wr(l)]);
        Enclose(x, stack + [Wr(l)], p[1..], close);
      case _ =>
        assert Pop([x] + stack) == [x] + Pop(stack);
        Enclose(x, Pop(stack), p[1..], close);
    }
  }

  lemma SectionOps(x: Section, close: Op, p: seq<Op>)
    requires close == (if x.Rd? then EndRead(x.lock) else EndWrite(x.lock)) || (x.Rd? && close == ReturnFail(x.lock))
    requires Bracketed([], p)
    ensures var open := if x.Rd? then StartRead(x.lock) else StartWrite(x.lock);
            && Bracketed([], [open] + p + [close])
            && (Ordered([], p) && FitsInside(x, p) ==> Ordered([], [open] + p + [close]))
  {
    var open := if x.Rd? then StartRead(x.lock) else StartWrite(x.lock);
    Enclose(x, [], p, close);
    assert [x] + [] == [x] && [] + [x] == [x];
    assert ([open] + p + [close])[1..] == p + [close];
  }

  lemma SimpleSection(x: Section)
    ensures var p := if x.Rd? then [StartRead(x.lock), EndRead(x.lock)] else [StartWrite(x.lock), EndWrite(x.lock)];
            Bracketed([], p) && Ordered([], p)
  {
    var open := if x.Rd? then StartRead(x.lock) else StartWrite(x.lock);
    var close := if x.Rd? then EndRead(x.lock) else EndWrite(x.lock);
    SectionOps(x, close, []);
    assert [open] + [] + [close] == [open, close];
  }

  lemma LookupOk(sup: LockId, hit: bool)
    ensures Bracketed([], LookupOps(sup, hit)) && Ordered([], LookupOps(sup, hit))
  {
    SimpleSection(Rd(sup));
    SimpleSection(Wr(sup));
    BracketedAppend([], [StartRead(sup), EndRead(sup)], [StartWrite(sup), EndWrite(sup)]);
    OrderedAppend([], [StartRead(sup), EndRead(sup)], [StartWrite(sup), EndWrite(sup)]);
    assert hit ==> LookupOps(sup, hit) == [StartRead(sup), EndRead(sup)];
  }

  lemma SyncReadOk(l: LockId, inner: bool, fails: bool, v: Variant)
    ensures Bracketed([], SyncReadOps(l, inner, fails, v)) && Ordered([], SyncReadOps(l, inner, fails, v))
  {
    var close := if fails && !v.releaseOnFail then ReturnFail(l) else EndRead(l);
    SimpleSection(Rd(l));
    SectionOps(Rd(l), close, ReadOps(l, inner));
  }

  lemma RegisterOk(sup: LockId, v: Variant)
    ensures Bracketed([], RegisterOps(sup, v)) && Ordered([], RegisterOps(sup, v))
    ensures forall i :: 0 <= i < |RegisterOps(sup, v)| ==> RegisterOps(sup, v)[i].lock == sup
  {
    SimpleSection(Wr(sup));
    LookupOk(sup, true);
    SectionOps(Wr(sup), EndWrite(sup), LookupOps(sup, true));
    if !v.lookupUnlocked {
      assert RegisterOps(sup, v)[1..][0] == StartRead(sup);
    }
  }

  lemma RwOpenOk(h: nat, registers: bool, hs: Handles, v: Variant)
    requires HandlesOk(hs) && h < |hs.locks|
    ensures var p := CallOps(RwOpen(h, registers), hs, v);
            Bracketed([], p) && Ordered([], p) && LocksBelow(p, hs.sup + 1)
  {
    var inner := if registers then RegisterOps(hs.sup, v) else [];
    RegisterOk(hs.sup, v);
    assert forall i :: 0 <= i < |inner| ==> inner[i].lock == hs.sup;
    SectionOps(Wr(hs.locks[h]), EndWrite(hs.locks[h]), inner);
  }

  /** Every operation is bracketed and respects the lock order, at least up to its double lock if it has one. */
  lemma CallOk(c: Call, hs: Handles, v: Variant)
    requires HandlesOk(hs) && (c.GetByName? || c.GetByFd? || c.h < |hs.locks|)
    ensures Bracketed([], CallOps(c, hs, v)) && LocksBelow(CallOps(c, hs, v), hs.sup + 1)
    ensures Ordered([], CallOps(c, hs, v))
  {
    match c
    case RwOpen(h, registers) => RwOpenOk(h, registers, hs, v);
    case RwClose(h, _) => SimpleSection(Wr(hs.locks[h]));
    case WriteW(h, _) => SimpleSection(Wr(hs.locks[h]));
    case SeekW(h, _) => SimpleSection(Wr(hs.locks[h]));
    case ReadW(h, _) => SimpleSection(Rd(hs.locks[h]));
    case SyncReadW(h, _, inner, fails) => SyncReadOk(hs.locks[h], inner, fails, v);
    case GetByName(hit) => LookupOk(hs.sup, hit);
    case GetByFd => SimpleSection(Rd(hs.sup));
  }

  lemma {:induction false} ProgramOk(calls: seq<Call>, hs: Handles, v: Variant)
    requires HandlesOk(hs) && CallsOk(calls, hs)
    ensures var p := ProgramOf(calls, hs, v);
            Bracketed([], p) && Ordered([], p) && LocksBelow(p, hs.sup + 1)
  {
    if calls != [] {
      CallOk(calls[0], hs, v);
      ProgramOk(calls[1..], hs, v);
      BracketedAppend([], CallOps(calls[0], hs, v), ProgramOf(calls[1..], hs, v));
      OrderedAppend([], CallOps(calls[0], hs, v), ProgramOf(calls[1..], hs, v));
    }
  }

  // ---------------------------------------------------------------- the calls that lock twice

  lemma {:induction false} RelocksAppend(stack: seq<Section>, p: seq<Op>, q: seq<Op>, l: LockId)
    requires Bracketed(stack, p)
    ensures Relocks(stack, p + q, l) <==> Relocks(stack, p, l) || Relocks([], q, l)
    decreases |p|
  {
    if p == [] {
      assert p + q == q;
    } else {
      assert (p + q)[1..] == p[1..] + q;
      match p[0]
      case StartRead(k) => RelocksAppend(stack + [Rd(k)], p[1..], q, l);
      case StartWrite(k) => RelocksAppend(stack + [Wr(k)], p[1..], q, l);
      case _ => RelocksAppend(Pop(stack), p[1..], q, l);
    }
  }

  /** A section x around p adds no double lock of l unless x is a write section of l. */
  lemma {:induction false} RelocksInside(x: Section, stack: seq<Section>, p: seq<Op>, close: Op, l: LockId)
    requires Bracketed(stack, p) && !close.StartRead? && !close.StartWrite?
    requires x == Wr(l) ==> StartRead(l) !in p && StartWrite(l) !in p
    ensures Relocks([x] + stack, p + [close], l) <==> Relocks(stack, p, l)
    decreases |p|
  {
    if p == [] {
      assert (p + [close])[1..] == [];
    } else {
      assert (p + [close])[1..] == p[1..] + [close] && (p + [close])[0] == p[0];
      assert p == [p[0]] + p[1..];
      assert Wr(l) in [x] + stack <==> x == Wr(l) || Wr(l) in stack;
      match p[0]
      case StartRead(k) =>
        assert ([x] + stack) + [Rd(k)] == [x] + (stack + [Rd(k)]);
        RelocksInside(x, stack + [Rd(k)], p[1..], close, l);
      case StartWrite(k) =>
        assert ([x] + stack) + [Wr(k)] == [x] + (stack + [Wr(k)]);
        RelocksInside(x, stack + [Wr(k)], p[1..], close, l);
      case _ =>
        assert Pop([x] + stack) == [x] + Pop(stack);
        RelocksInside(x, Pop(stack), p[1..], close, l);
    }
  }

  lemma SectionRelocks(x: Section, close: Op, p: seq<Op>, l: LockId)
    requires Bracketed([], p) && !close.StartRead? && !close.StartWrite?
    requires x == Wr(l) ==> StartRead(l) !in p && StartWrite(l) !in p
    ensures var open := if x.Rd? then StartRead(x.lock) else StartWrite(x.lock);
            Relocks([], [open] + p + [close], l) <==> Relocks([], p, l)
  {
    var open := if x.Rd? then StartRead(x.lock) else StartWrite(x.lock);
    RelocksInside(x, [], p, close, l);
    assert [x] + [] == [x] && [] + [x] == [x];
    assert ([open] + p + [close])[1..] == p + [close];
  }

  lemma SimpleNeverRelocks(k: LockId, l: LockId)
    ensures !Relocks([], [StartRead(k), EndRead(k)], l) && !Relocks([], [StartWrite(k), EndWrite(k)], l)
  {
    SectionRelocks(Rd(k), EndRead(k), [], l);
    SectionRelocks(Wr(k), EndWrite(k), [], l);
    assert [StartRead(k)] + [] + [EndRead(k)] == [StartRead(k), EndRead(k)];
    assert [StartWrite(k)] + [] + [EndWrite(k)] == [StartWrite(k), EndWrite(k)];
  }

  lemma LookupNeverRelocks(sup: LockId, hit: bool, l: LockId)
    ensures !Relocks([], LookupOps(sup, hit), l)
  {
    LookupOk(sup, true);
    SimpleNeverRelocks(sup, l);
    SimpleSection(Rd(sup));
    RelocksAppend([], [StartRead(sup), EndRead(sup)], [StartWrite(sup), EndWrite(sup)], l);
    assert hit ==> LookupOps(sup, hit) == [StartRead(sup), EndRead(sup)];
  }

  /** As written the registration locks the supervisor's lock twice. */
  lemma RegisterRelocks(sup: LockId, v: Variant, l: LockId)
    ensures Relocks([], RegisterOps(sup, v), l) <==> l == sup && !v.lookupUnlocked
  {
    if v.lookupUnlocked {
      SimpleNeverRelocks(sup, l);
    } else if l == sup {
      RelocksAtOnce(sup, RegisterOps(sup, v));
    } else {
      LookupOk(sup, true);
      LookupNeverRelocks(sup, true, l);
      SectionRelocks(Wr(sup), EndWrite(sup), LookupOps(sup, true), l);
    }
  }

  lemma RelocksAtOnce(l: LockId, p: seq<Op>)
    requires |p| > 1 && p[0] == StartWrite(l) && p[1] == StartRead(l)
    ensures Relocks([], p, l)
  {
    assert p[1..][0] == StartRead(l);
  }

  lemma CallRelocks(c: Call, hs: Handles, v: Variant, l: LockId)
    requires HandlesOk(hs) && (c.GetByName? || c.GetByFd? || c.h < |hs.locks|)
    ensures Relocks([], CallOps(c, hs, v), l) <==> Registers(c) && !v.lookupUnlocked && l == hs.sup
  {
    match c
    case RwOpen(h, registers) =>
      var inner := if registers then RegisterOps(hs.sup, v) else [];
      RegisterOk(hs.sup, v);
      RegisterRelocks(hs.sup, v, l);
      assert forall i :: 0 <= i < |inner| ==> inner[i].lock == hs.sup;
      SectionRelocks(Wr(hs.locks[h]), EndWrite(hs.locks[h]), inner, l);
    case SyncReadW(h, passes, inner, fails) =>
      var k := hs.locks[h];
      SimpleNeverRelocks(k, l);
      SimpleSection(Rd(k));
      SectionRelocks(Rd(k), if fails && !v.releaseOnFail then ReturnFail(k) else EndRead(k), ReadOps(k, inner), l);
    case GetByName(hit) => LookupNeverRelocks(hs.sup, hit, l);
    case GetByFd => SimpleNeverRelocks(hs.sup, l);
    case _ => SimpleNeverRelocks(hs.locks[c.h], l);
  }

  /** A client locks twice exactly if it opens and registers, as written, and then the supervisor's lock. */
  lemma {:induction false} ProgramRelocks(calls: seq<Call>, hs: Handles, v: Variant, l: LockId)
    requires HandlesOk(hs) && CallsOk(calls, hs)
    ensures Relocks([], ProgramOf(calls, hs, v), l)
            <==> (exists i :: 0 <= i < |calls| && Registers(calls[i])) && !v.lookupUnlocked && l == hs.sup
  {
    if calls != [] {
      CallOk(calls[0], hs, v);
      CallRelocks(calls[0], hs, v, l);
      ProgramRelocks(calls[1..], hs, v, l);
      RelocksAppend([], CallOps(calls[0], hs, v), ProgramOf(calls[1..], hs, v), l);
      assert calls == [calls[0]] + calls[1..];
    }
  }

  // ---------------------------------------------------------------- the whole service

  predicate ClientsOk(clients: seq<seq<Call>>, hs: Handles) {
    HandlesOk(hs) && forall t :: 0 <= t < |clients| ==> CallsOk(clients[t], hs)
  }

  /** One thread per client, about to make its calls; all locks free. */
  function Service(clients: seq<seq<Call>>, hs: Handles, v: Variant): State
    requires ClientsOk(clients, hs)
  {
    State(seq(hs.sup + 1, _ => FREE_LOCK),
          seq(|clients|, t requires 0 <= t < |clients| => Thread(Ready, [], ProgramOf(clients[t], hs, v))))
  }

  lemma ServiceInit(clients: seq<seq<Call>>, hs: Handles, v: Variant)
    requires ClientsOk(clients, hs)
    ensures Init(Service(clients, hs, v)) && ThreadsOrdered(Service(clients, hs, v))
  {
    forall t | 0 <= t < |clients|
      ensures var p := ProgramOf(clients[t], hs, v);
              Bracketed([], p) && Ordered([], p) && LocksBelow(p, hs.sup + 1)
    {
      ProgramOk(clients[t], hs, v);
    }
  }

  lemma {:induction false} FailsAppend(p: seq<Op>, q: seq<Op>, l: LockId)
    ensures Fails(p + q, l) == Fails(p, l) + Fails(q, l)
  {
    if p == [] {
      assert p + q == q;
    } else {
      assert (p + q)[1..] == p[1..] + q;
      FailsAppend(p[1..], q, l);
    }
  }

  lemma {:induction false} NoFails(p: seq<Op>, l: LockId)
    requires forall i :: 0 <= i < |p| ==> !p[i].ReturnFail?
    ensures Fails(p, l) == 0
  {
    if p != [] {
      NoFails(p[1..], l);
    }
  }

  lemma {:induction false} ReleasedReadsNeverFail(calls: seq<Call>, hs: Handles, v: Variant, l: LockId)
    requires CallsOk(calls, hs) && v.releaseOnFail
    ensures Fails(ProgramOf(calls, hs, v), l) == 0
  {
    if calls != [] {
      NoFails(CallOps(calls[0], hs, v), l);
      ReleasedReadsNeverFail(calls[1..], hs, v, l);
      FailsAppend(CallOps(calls[0], hs, v), ProgramOf(calls[1..], hs, v), l);
    }
  }

  lemma ServiceNeverFails(clients: seq<seq<Call>>, hs: Handles, v: Variant)
    requires ClientsOk(clients, hs) && v.releaseOnFail
    ensures NeverFails(Service(clients, hs, v))
  {
    forall l: LockId, t | 0 <= t < |clients| ensures Fails(ProgramOf(clients[t], hs, v), l) == 0 {
      ReleasedReadsNeverFail(clients[t], hs, v, l);
    }
  }

  /** Client t opens an accessor and registers it. */
  predicate Opens(clients: seq<seq<Call>>, t: nat) {
    t < |clients| && exists i :: 0 <= i < |clients[t]| && Registers(clients[t][i])
  }

  ghost predicate SomeoneOpens(clients: seq<seq<Call>>) {
    exists t: nat :: Opens(clients, t)
  }

  lemma ServiceRelocks(clients: seq<seq<Call>>, hs: Handles, v: Variant)
    requires ClientsOk(clients, hs)
    ensures NeverRelocks(Service(clients, hs, v)) <==> v.lookupUnlocked || !SomeoneOpens(clients)
  {
    forall t, l: LockId | 0 <= t < |clients|
      ensures WillRelock(Service(clients, hs, v).threads[t], l)
              <==> Opens(clients, t) && !v.lookupUnlocked && l == hs.sup
    {
      ProgramRelocks(clients[t], hs, v, l);
    }
    if SomeoneOpens(clients) {
      var t: nat :| Opens(clients, t);
      assert WillRelock(Service(clients, hs, v).threads[t], hs.sup) <==> !v.lookupUnlocked;
    }
  }

  /**
   The intended service never deadlocks: any number of clients, each making any calls on any accessors and
   their copies, with the supervisor's lock taken inside the accessors' locks.
   */
  lemma ServiceNeverDeadlocks(clients: seq<seq<Call>>, hs: Handles, acts: seq<Action>) returns (t: Tid, wake: set<Tid>)
    requires ClientsOk(clients, hs) && IsRun(Service(clients, hs, AS_MEANT), acts)
    requires !AllFinished(After(Service(clients, hs, AS_MEANT), acts))
    ensures Enabled(After(Service(clients, hs, AS_MEANT), acts), Run(t, wake))
  {
    ServiceInit(clients, hs, AS_MEANT);
    ServiceNeverFails(clients, hs, AS_MEANT);
    ServiceRelocks(clients, hs, AS_MEANT);
    t, wake := DeadlockFreedom(Service(clients, hs, AS_MEANT), acts);
  }

  /** Every run of the intended service that cannot go on has finished all calls of all clients, in bounded time. */
  lemma {:induction false} ServiceCompletes(clients: seq<seq<Call>>, hs: Handles, acts: seq<Action>)
    requires ClientsOk(clients, hs) && IsRun(Service(clients, hs, AS_MEANT), acts)
    requires Quiet(After(Service(clients, hs, AS_MEANT), acts))
    ensures AllFinished(After(Service(clients, hs, AS_MEANT), acts))
    ensures |acts| <= Budget(Service(clients, hs, AS_MEANT)) + 4 * SpuriousSteps(acts)
  {
    ServiceInit(clients, hs, AS_MEANT);
    ServiceNeverFails(clients, hs, AS_MEANT);
    ServiceRelocks(clients, hs, AS_MEANT);
    RunsComplete(Service(clients, hs, AS_MEANT), acts);
    RunsAreFinite(Service(clients, hs, AS_MEANT), acts);
  }

  lemma {:induction false} CopiesShare(hs: Handles, sources: seq<nat>, h: nat)
    requires SourcesExist(|hs.locks|, sources) && h < |hs.locks| + |sources|
    ensures CopyAll(hs, sources).locks[h] == hs.locks[Origin(|hs.locks|, sources, h)]
    decreases h + |sources|
  {
    var n := |sources|;
    if n > 0 {
      var before := sources[..n - 1];
      var g := if h == |hs.locks| + n - 1 then sources[n - 1] else h;
      CopiesShare(hs, before, g);
      OriginPrefix(|hs.locks|, sources, g);
    }
  }

  lemma {:induction false} OriginPrefix(originals: nat, sources: seq<nat>, h: nat)
    requires sources != [] && SourcesExist(originals, sources) && h < originals + |sources| - 1
    ensures Origin(originals, sources[..|sources| - 1], h) == Origin(originals, sources, h)
  {
    if h >= originals {
      OriginPrefix(originals, sources, sources[h - originals]);
    }
  }

  /** Every accessor that is not a copy was constructed with a lock of its own. */
  predicate OwnLocks(hs: Handles) {
    forall i, j :: 0 <= i < j < |hs.locks| ==> hs.locks[i] != hs.locks[j]
  }

  /**
   Whatever copies are made of which accessors, in any order and of copies again: two handles have the same lock
   exactly if they stem from the same original, and then nobody is in any section of one while another client is
   in a write section of the other.
   */
  lemma CopiesExclude(
      clients: seq<seq<Call>>, hs: Handles, sources: seq<nat>, g: nat, h: nat, v: Variant, acts: seq<Action>,
      t: Tid, u: Tid)
    requires SourcesExist(|hs.locks|, sources) && g < |hs.locks| + |sources| && h < |hs.locks| + |sources|
    requires ClientsOk(clients, CopyAll(hs, sources)) && IsRun(Service(clients, CopyAll(hs, sources), v), acts)
    requires t != u && t < |clients| && u < |clients|
    ensures var all := CopyAll(hs, sources);
            var same := Origin(|hs.locks|, sources, g) == Origin(|hs.locks|, sources, h);
            var s := After(Service(clients, all, v), acts);
            && |s.threads| == |clients|
            && (same ==> all.locks[g] == all.locks[h])
            && (OwnLocks(hs) && all.locks[g] == all.locks[h] ==> same)
            && (same && Wr(all.locks[g]) in s.threads[t].stack ==> !Inside(s.threads[u], all.locks[h]))
  {
    var all := CopyAll(hs, sources);
    var s0 := Service(clients, all, v);
    CopiesShare(hs, sources, g);
    CopiesShare(hs, sources, h);
    ServiceInit(clients, all, v);
    RunShape(s0, acts);
    if Wr(all.locks[g]) in After(s0, acts).threads[t].stack {
      MutualExclusion(s0, acts, all.locks[g], t);
    }
  }

  // ---------------------------------------------------------------- the code as written

  /** As written, a client that opens an accessor anywhere among its calls never finishes, whatever the others do. */
  lemma OpenAsWrittenNeverReturns(clients: seq<seq<Call>>, hs: Handles, releaseOnFail: bool, acts: seq<Action>, t: Tid)
    requires ClientsOk(clients, hs) && Opens(clients, t)
    requires IsRun(Service(clients, hs, Variant(releaseOnFail, false)), acts)
    ensures var s := After(Service(clients, hs, Variant(releaseOnFail, false)), acts);
            |s.threads| == |clients| && !Finished(s.threads[t])
  {
    var v := Variant(releaseOnFail, false);
    ServiceInit(clients, hs, v);
    InitInv(Service(clients, hs, v));
    ProgramRelocks(clients[t], hs, v, hs.sup);
    RelockingNeverFinishes(Service(clients, hs, v), acts, t, hs.sup);
  }

  /** In the service a client can only be blocked by its own write section of the supervisor's lock, in an open. */
  lemma OnlyOpensBlockThemselves(
      clients: seq<seq<Call>>, hs: Handles, v: Variant, acts: seq<Action>, t: Tid, l: LockId)
    requires ClientsOk(clients, hs) && IsRun(Service(clients, hs, v), acts) && t < |clients|
    ensures |After(Service(clients, hs, v), acts).threads| == |clients|
    ensures SelfBlocked(After(Service(clients, hs, v), acts).threads[t], l)
            ==> Opens(clients, t) && !v.lookupUnlocked && l == hs.sup
  {
    ServiceInit(clients, hs, v);
    InitInv(Service(clients, hs, v));
    ProgramRelocks(clients[t], hs, v, l);
    RelockingNeverFinishes(Service(clients, hs, v), acts, t, l);
  }

  /**
   Once a client t is blocked inside its own open, no other client u gets the supervisor's lock again or the
   lock of any accessor that t is writing, so a client that still has a call to make on one of these never finishes.
   */
  lemma BlockedOpenStopsService(
      clients: seq<seq<Call>>, hs: Handles, v: Variant, acts: seq<Action>, more: seq<Action>, t: Tid, l: LockId,
      u: Tid, k: LockId)
    requires ClientsOk(clients, hs) && IsRun(Service(clients, hs, v), acts)
    requires IsRun(After(Service(clients, hs, v), acts), more) && t < |clients| && u < |clients| && u != t
    requires t < |After(Service(clients, hs, v), acts).threads|
    requires SelfBlocked(After(Service(clients, hs, v), acts).threads[t], l)
    requires k == hs.sup || (k < hs.sup && Wr(k) in After(Service(clients, hs, v), acts).threads[t].stack)
    ensures var s := After(Service(clients, hs, v), acts);
            && |s.threads| == |After(s, more).threads| == |clients|
            && !Holds(After(s, more).threads[u], k)
            && (WillEnter(s.threads[u], k) ==> !Finished(After(s, more).threads[u]))
  {
    var s0 := Service(clients, hs, v);
    ServiceInit(clients, hs, v);
    InitInv(s0);
    RunKeepsInv(s0, acts);
    RunShape(s0, acts);
    OnlyOpensBlockThemselves(clients, hs, v, acts, t, l);
    SelfDeadlock(After(s0, acts), more, l, t, k, u);
  }
}

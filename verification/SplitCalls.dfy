/**
 The two calls whose test and effect are separate lock sections in the source, so that other calls come between:
 rw_close (FileAccesser.cpp) tests before it takes the write lock, and getSyncFileAccessorStr (FileSupervisor.cpp)
 gives up its read lock before it adds the missing accessor.  Registry has both as one step.
 */
module SplitCalls {

  import opened Messages
  import opened Registry

  // ---------------------------------------------------------------- rw_close in two parts

  /** CloseTest is the intended CHECKOPEN of an rw_close, CloseSection the locked section of one that passed. */
  datatype Part = OpenSection(osFd: int) | CloseTest | CloseSection

  /** pending counts the rw_close calls that have passed their test and not yet closed. */
  datatype Split = Split(acc: Acc, pending: nat)

  predicate PartOk(s: Split, p: Part) {
    && (p.OpenSection? ==> p.osFd >= -1)
    && (p.CloseSection? ==> s.pending > 0)
  }

  function SplitStep(s: Split, p: Part): Split
    requires PartOk(s, p)
  {
    match p
    case OpenSection(osFd) => s.(acc := AccOpen(s.acc, osFd, true))
    case CloseTest => if s.acc.isOpen then s.(pending := s.pending + 1) else s
    case CloseSection => Split(AccClose(s.acc, false), s.pending - 1)
  }

  predicate IsSchedule(s: Split, parts: seq<Part>)
    decreases |parts|
  {
    parts == [] || (PartOk(s, parts[0]) && IsSchedule(SplitStep(s, parts[0]), parts[1..]))
  }

  function SplitAfter(s: Split, parts: seq<Part>): Split
    requires IsSchedule(s, parts)
    decreases |parts|
  {
    if parts == [] then s else SplitAfter(SplitStep(s, parts[0]), parts[1..])
  }

  /** Some test passes while another passed close is still pending. */
  predicate TestsOverlap(s: Split, parts: seq<Part>)
    requires IsSchedule(s, parts)
    decreases |parts|
  {
    parts != [] &&
    ((parts[0].CloseTest? && s.acc.isOpen && s.pending > 0) || TestsOverlap(SplitStep(s, parts[0]), parts[1..]))
  }

  /** The accessor once all pending closes have been done. */
  function Drained(s: Split): Acc
    decreases s.pending
  {
    if s.pending == 0 then s.acc else Drained(SplitStep(s, CloseSection))
  }

  /** At every point the accessor is balanced once the closes pending there are done, if nothing else intervenes. */
  predicate BalancedThroughout(s: Split, parts: seq<Part>)
    requires IsSchedule(s, parts)
    decreases |parts|
  {
    Balanced(Drained(s)) && (parts == [] || BalancedThroughout(SplitStep(s, parts[0]), parts[1..]))
  }

  /** How many closes the system was asked for beyond those that the opens and the present owner account for. */
  function Excess(a: Acc): int {
    a.closes + a.owners - a.opens
  }

  predicate OneOwner(a: Acc) {
    0 <= a.owners <= 1 && (a.isOpen <==> a.owners == 1)
  }

  lemma {:induction false} DrainedExcess(s: Split)
    requires OneOwner(s.acc)
    ensures OneOwner(Drained(s))
    ensures Excess(Drained(s)) == Excess(s.acc) + if s.pending > s.acc.owners then s.pending - s.acc.owners else 0
    decreases s.pending
  {
    if s.pending > 0 {
      DrainedExcess(SplitStep(s, CloseSection));
    }
  }

  /** Done at once, the two parts are the close of the registry. */
  lemma TestThenClose(a: Acc)
    ensures var s := SplitStep(Split(a, 0), CloseTest);
            (if s.pending > 0 then SplitStep(s, CloseSection) else s) == Split(AccClose(a, true), 0)
  {
  }

  /**
   Each section that finds the accessor closed is one close too many, for good; whatever the schedule, opening
   still means one owner, and the accessor is balanced exactly if there was no such section.
   */
  lemma {:induction false} DoubleCloses(s: Split, parts: seq<Part>)
    requires OneOwner(s.acc) && IsSchedule(s, parts)
    ensures var a := SplitAfter(s, parts).acc;
            && OneOwner(a)
            && Excess(a) == Excess(s.acc) + LateSections(s, parts)
            && (Excess(s.acc) == 0 ==> (Balanced(a) <==> LateSections(s, parts) == 0))
    decreases |parts|
  {
    if parts != [] {
      DoubleCloses(SplitStep(s, parts[0]), parts[1..]);
    }
  }

  /** The number of close sections that find the accessor closed. */
  function LateSections(s: Split, parts: seq<Part>): nat
    requires IsSchedule(s, parts)
    decreases |parts|
  {
    if parts == [] then 0
    else
      (if parts[0].CloseSection? && !s.acc.isOpen then 1 else 0) + LateSections(SplitStep(s, parts[0]), parts[1..])
  }

  /**
   The closes of an accessor, as intended but with test and section apart: balance is kept wherever the pending
   closes may be done exactly if no close passes its test while another one that passed is pending.
   */
  lemma {:induction false} BalancedExactlyWithoutOverlap(s: Split, parts: seq<Part>)
    requires Balanced(s.acc) && s.pending <= s.acc.owners && IsSchedule(s, parts)
    ensures BalancedThroughout(s, parts) <==> !TestsOverlap(s, parts)
    decreases |parts|
  {
    DrainedExcess(s);
    if parts != [] {
      var s' := SplitStep(s, parts[0]);
      if s'.pending <= s'.acc.owners {
        BalancedExactlyWithoutOverlap(s', parts[1..]);
      } else {
        DrainedExcess(s');
      }
    }
  }

  /** Without overlap there is no late section either, so the accessor is balanced after every part. */
  lemma {:induction false} NoOverlapNoLateSections(s: Split, parts: seq<Part>)
    requires Balanced(s.acc) && s.pending <= s.acc.owners && IsSchedule(s, parts) && !TestsOverlap(s, parts)
    ensures LateSections(s, parts) == 0
    decreases |parts|
  {
    if parts != [] {
      NoOverlapNoLateSections(SplitStep(s, parts[0]), parts[1..]);
    }
  }

  /** An overlap need not do harm: an open may come between the two sections. */
  lemma OverlapMayBalance()
    ensures var parts := [OpenSection(3), CloseTest, CloseTest, CloseSection, OpenSection(3), CloseSection];
            && IsSchedule(Split(NEW_ACC, 0), parts) && TestsOverlap(Split(NEW_ACC, 0), parts)
            && Balanced(SplitAfter(Split(NEW_ACC, 0), parts).acc)
  {
  }

  // ---------------------------------------------------------------- getSyncFileAccessorStr in two parts

  type Name = seq<Byte>

  /** Probe is the read section, Insert the write section of a call whose probe missed. */
  datatype Access = Probe(name: Name) | Insert(name: Name)

  /** Accessors are numbered as they are made; missed has a name once for each miss whose insertion is to come. */
  datatype Index = Index(files: map<Name, nat>, next: nat, missed: multiset<Name>)

  const EMPTY_INDEX := Index(map[], 0, multiset{})

  predicate AccessOk(x: Index, a: Access) {
    a.Insert? ==> a.name in x.missed
  }

  function Touch(x: Index, a: Access): Index
    requires AccessOk(x, a)
  {
    match a
    case Probe(n) => if n in x.files then x else x.(missed := x.missed + multiset{n})
    case Insert(n) => Index(x.files[n := x.next], x.next + 1, x.missed - multiset{n})
  }

  predicate IsTrace(trace: seq<Access>)
    decreases |trace|, 0
  {
    trace == [] || (IsTrace(trace[..|trace| - 1])
                    && AccessOk(IndexAfter(trace[..|trace| - 1]), trace[|trace| - 1]))
  }

  function IndexAfter(trace: seq<Access>): Index
    requires IsTrace(trace)
    decreases |trace|, 1
  {
    if trace == [] then EMPTY_INDEX else Touch(IndexAfter(trace[..|trace| - 1]), trace[|trace| - 1])
  }

  /** a is a probe of n that misses. */
  predicate Misses(x: Index, a: Access, n: Name) {
    a == Probe(n) && n !in x.files
  }

  /** Some probe of n misses while the insertion for an earlier miss of n is still to come. */
  predicate MissesOverlap(trace: seq<Access>, n: Name)
    requires IsTrace(trace)
  {
    trace != [] &&
    var front, last := trace[..|trace| - 1], trace[|trace| - 1];
    MissesOverlap(front, n) || (Misses(IndexAfter(front), last, n) && n in IndexAfter(front).missed)
  }

  /** No access ever replaces the accessor registered for n by another one. */
  predicate NeverReplaced(trace: seq<Access>, n: Name)
    requires IsTrace(trace)
  {
    trace != [] ==>
      var front := trace[..|trace| - 1];
      && NeverReplaced(front, n)
      && (n in IndexAfter(front).files ==>
            n in IndexAfter(trace).files && IndexAfter(trace).files[n] == IndexAfter(front).files[n])
  }

  /** How many probes of n have missed, and how many accessors have been made for it. */
  function Counts(trace: seq<Access>, n: Name): (nat, nat)
    requires IsTrace(trace)
  {
    if trace == [] then (0, 0)
    else
      var front, last := trace[..|trace| - 1], trace[|trace| - 1];
      var (misses, made) := Counts(front, n);
      (misses + (if Misses(IndexAfter(front), last, n) then 1 else 0), made + (if last == Insert(n) then 1 else 0))
  }

  /** Done at once, the two parts are the lookup of the registry. */
  lemma ProbeThenInsert(x: Index, n: Name)
    requires n !in x.missed
    ensures var y := Touch(x, Probe(n));
            if n in x.files then y == x
            else n in y.missed && Touch(y, Insert(n)) == Index(x.files[n := x.next], x.next + 1, x.missed)
  {
  }

  lemma {:induction false} CountsDecide(trace: seq<Access>, n: Name)
    requires IsTrace(trace)
    ensures var x, (misses, made) := IndexAfter(trace), Counts(trace, n);
            && misses == made + x.missed[n]
            && (n in x.files <==> made > 0)
            && (forall m :: m in x.files ==> x.files[m] < x.next)
            && (MissesOverlap(trace, n) <==> misses > 1)
            && (NeverReplaced(trace, n) <==> made <= 1)
  {
    if trace != [] {
      CountsDecide(trace[..|trace| - 1], n);
    }
  }

  /**
   Lookups by name from any threads, with test and insertion apart: once all insertions for n are done, the
   accessor of n was never replaced exactly if no two misses of n overlapped.
   */
  lemma OneAccessorPerName(trace: seq<Access>, n: Name)
    requires IsTrace(trace) && n !in IndexAfter(trace).missed
    ensures NeverReplaced(trace, n) <==> !MissesOverlap(trace, n)
  {
    CountsDecide(trace, n);
  }
}

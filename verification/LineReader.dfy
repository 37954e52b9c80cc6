/** readline of tcp-utils.cpp: a bounded line buffer over a byte stream. */
module LineReader {

  import opened Messages
  import opened Streams

  const NODATA := -2

  /** The outcome of one call: a line, the end of the stream, or a failed read. */
  datatype Outcome = Line(bytes: seq<Byte>) | NoData | Failed

  function LineBytes(pending: seq<Event>, max: nat): (b: seq<Byte>)
    requires max >= 2
  {
    BytesOf(pending, Scan(pending, max - 2))
  }

  function ReadlineOutcome(pending: seq<Event>, max: nat): Outcome
    requires max >= 2
  {
    var n := Scan(pending, max - 2);
    if n < max - 2 && n == |pending| == 0 then NoData
    else if n < max - 2 && n < |pending| && pending[n].Error? then Failed
    else Line(LineBytes(pending, max))
  }

  /** What one call leaves in the stream. */
  function ReadlineRest(pending: seq<Event>, max: nat): seq<Event>
    requires max >= 2
  {
    var n := Scan(pending, max - 2);
    if n < max - 2 && n < |pending| then pending[n + 1..] else pending[n..]
  }

  /** What one call does, when the line is known to be n bytes long. */
  lemma OutcomeAt(pending: seq<Event>, max: nat, n: nat)
    requires 2 <= max && n <= max - 2 && n <= |pending|
    requires forall i :: 0 <= i < n ==> pending[i].Data? && !IsLineEnd(pending[i])
    requires n < max - 2 && n < |pending| ==> pending[n].Error? || IsLineEnd(pending[n])
    ensures ReadlineOutcome(pending, max)
         == if n < max - 2 && |pending| == 0 then NoData
            else if n < max - 2 && n < |pending| && pending[n].Error? then Failed
            else Line(BytesOf(pending, n))
    ensures ReadlineRest(pending, max) == if n < max - 2 && n < |pending| then pending[n + 1..] else pending[n..]
  {
    ScanUnique(pending, max - 2, n);
  }

  /** The n-th read fails, before the line has ended or filled its room. */
  predicate LineFails(pending: seq<Event>, max: nat, n: nat) {
    && n + 2 < max && n < |pending| && pending[n].Error?
    && forall i :: 0 <= i < n ==> pending[i].Data? && !IsLineEnd(pending[i])
  }

  lemma FailedAt(pending: seq<Event>, max: nat)
    requires max >= 2
    ensures ReadlineOutcome(pending, max).Failed? <==> exists n :: LineFails(pending, max, n)
  {
    assert ReadlineOutcome(pending, max).Failed? ==> LineFails(pending, max, Scan(pending, max - 2));
    if n :| LineFails(pending, max, n) {
      ScanUnique(pending, max - 2, n);
    }
  }

  /**
   readline.  The source forms max - 2 in an unsigned type, so a max below 2 would give it no usable bound.
   It writes the line and its NUL, a second NUL when the line ended inside the buffer, and nothing else.
   */
  method Readline(src: ByteSource, buf: array<Byte>, max: nat) returns (r: int)
    requires 2 <= max <= buf.Length
    modifies src, buf
    ensures src.pending == ReadlineRest(old(src.pending), max)
    ensures match ReadlineOutcome(old(src.pending), max)
            case NoData => r == NODATA
            case Failed => r == -1
            case Line(bytes) => r == |bytes| <= max - 2 && buf[..r] == bytes && buf[r] == NUL
    ensures r == NODATA <==> max > 2 && old(src.pending) == []
    ensures r == -1 <==> exists n :: LineFails(old(src.pending), max, n)
    ensures r >= 0 ==> forall k :: r + 1 < k < buf.Length ==> buf[k] == old(buf[k])
    ensures 0 <= r < max - 2 ==> buf[r + 1] == NUL
    ensures r == max - 2 ==> buf[r + 1] == old(buf[r + 1])
    ensures forall k :: max - 1 <= k < buf.Length ==> buf[k] == old(buf[k])
  {
    var begin := true;
    var i := 0;
    ghost var was := src.pending;
    FailedAt(was, max);
    while i < max - 2
      invariant 0 <= i <= max - 2 && i <= |was| && src.pending == was[i..]
      invariant begin <==> i == 0
      invariant forall k :: 0 <= k < i ==> was[k].Data? && !IsLineEnd(was[k]) && buf[k] == was[k].b
      invariant forall k :: i <= k < buf.Length ==> buf[k] == old(buf[k])
    {
      var what, tmp := src.Read1();
      if what == -1 {
        OutcomeAt(was, max, i);
        return -1;
      }
      if begin {
        if what == 0 {
          OutcomeAt(was, max, i);
          return NODATA;
        }
        begin := false;
      }
      if what == 0 || tmp == LF || tmp == CR {
        OutcomeAt(was, max, i);
        // The source's test is an assignment of CR to tmp, so it always passes.
        buf[i + 1] := NUL;
        buf[i] := NUL;
        return i;
      }
      buf[i] := tmp;
      i := i + 1;
    }
    OutcomeAt(was, max, i);
    buf[i] := NUL;
    return i;
  }

  // ---------------------------------------------------------------- repeated calls

  predicate ErrorFree(events: seq<Event>) {
    forall i :: 0 <= i < |events| ==> events[i].Data?
  }

  /** The bytes of a stream without its LF (10) and CR (13). */
  function Strip(events: seq<Event>): seq<Byte> {
    if events == [] then []
    else (if events[0].Data? && events[0].b != 10 && events[0].b != 13 then [events[0].b] else []) + Strip(events[1..])
  }

  /** The lines that repeated calls return before the end of the stream. */
  function Lines(pending: seq<Event>, max: nat): seq<seq<Byte>>
    requires max >= 3
    decreases |pending|
  {
    match ReadlineOutcome(pending, max)
    case NoData => []
    case Failed => Lines(ReadlineRest(pending, max), max)
    case Line(bytes) => [bytes] + Lines(ReadlineRest(pending, max), max)
  }

  function Concat(lines: seq<seq<Byte>>): seq<Byte> {
    if lines == [] then [] else lines[0] + Concat(lines[1..])
  }

  lemma {:induction false} StripBytes(events: seq<Event>, n: nat)
    requires n <= |events|
    requires forall i :: 0 <= i < n ==> events[i].Data? && !IsLineEnd(events[i])
    ensures Strip(events) == BytesOf(events, n) + Strip(events[n..])
    decreases n
  {
    if n > 0 {
      StripBytes(events[1..], n - 1);
      assert BytesOf(events, n) == [events[0].b] + BytesOf(events[1..], n - 1);
      assert events[1..][n - 1..] == events[n..];
    } else {
      assert events[0..] == events;
    }
  }

  lemma {:induction false} StripEnd(events: seq<Event>)
    requires events != [] && IsLineEnd(events[0])
    ensures Strip(events) == Strip(events[1..])
  {
  }

  /** One call takes the line and its end out of the stream. */
  lemma {:induction false} StripLine(pending: seq<Event>, max: nat)
    requires max >= 3 && ErrorFree(pending) && !ReadlineOutcome(pending, max).NoData?
    ensures ReadlineOutcome(pending, max).Line?
    ensures Strip(pending) == ReadlineOutcome(pending, max).bytes + Strip(ReadlineRest(pending, max))
    ensures ErrorFree(ReadlineRest(pending, max))
  {
    var n := Scan(pending, max - 2);
    OutcomeAt(pending, max, n);
    assert ReadlineOutcome(pending, max).bytes == BytesOf(pending, n);
    StripBytes(pending, n);
    if n < max - 2 && n < |pending| {
      StripEnd(pending[n..]);
      assert pending[n..][1..] == pending[n + 1..] == ReadlineRest(pending, max);
    } else {
      assert pending[n..] == ReadlineRest(pending, max);
    }
  }

  /**
   With room for at least one byte, repeated error-free calls deliver the whole stream in order: the lines put
   together are the stream without its CR and LF.
   */
  lemma {:induction false} StreamConservation(pending: seq<Event>, max: nat)
    requires max >= 3 && ErrorFree(pending)
    ensures Concat(Lines(pending, max)) == Strip(pending)
    decreases |pending|
  {
    if !ReadlineOutcome(pending, max).NoData? {
      StripLine(pending, max);
      StreamConservation(ReadlineRest(pending, max), max);
    }
  }

  /** With max 2 a call returns an empty line and consumes nothing, so the stream is never delivered. */
  lemma NoRoomNoProgress(pending: seq<Event>)
    ensures ReadlineOutcome(pending, 2) == Line([]) && ReadlineRest(pending, 2) == pending
  {
  }

  lemma {:induction false} OneLine(pending: seq<Event>, max: nat)
    requires max >= 3 && ReadlineOutcome(pending, max).Line?
    ensures var line := ReadlineOutcome(pending, max).bytes; |line| <= max - 2 && 10 !in line && 13 !in line
  {
  }

  /** No delivered line contains a line end or exceeds the buffer, on any stream. */
  lemma {:induction false} LineShape(pending: seq<Event>, max: nat)
    requires max >= 3
    ensures forall k :: 0 <= k < |Lines(pending, max)| ==>
              |Lines(pending, max)[k]| <= max - 2 && 10 !in Lines(pending, max)[k] && 13 !in Lines(pending, max)[k]
    decreases |pending|
  {
    match ReadlineOutcome(pending, max)
    case NoData =>
    case Failed => LineShape(ReadlineRest(pending, max), max);
    case Line(_) =>
      OneLine(pending, max);
      LineShape(ReadlineRest(pending, max), max);
  }
}

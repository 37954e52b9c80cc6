/** A connection seen one byte at a time, as read(fd, &c, 1) and recv(sd, &c, 1, 0) see it. */
module Streams {

  import opened Messages

  /** What is still to come: bytes and failed calls.  After the last event the stream is at its end. */
  datatype Event = Data(b: Byte) | Error

  const LF: Byte := 10
  const CR: Byte := 13

  predicate IsLineEnd(e: Event) {
    e.Data? && (e.b == LF || e.b == CR)
  }

  /** How many of the next events are bytes of the current line, looking at no more than limit of them. */
  function Scan(pending: seq<Event>, limit: nat): (n: nat)
    ensures n <= limit && n <= |pending|
    ensures forall i :: 0 <= i < n ==> pending[i].Data? && !IsLineEnd(pending[i])
    ensures n < limit && n < |pending| ==> pending[n].Error? || IsLineEnd(pending[n])
  {
    if limit == 0 || pending == [] || pending[0].Error? || IsLineEnd(pending[0]) then 0
    else 1 + Scan(pending[1..], limit - 1)
  }

  lemma {:induction false} ScanUnique(pending: seq<Event>, limit: nat, n: nat)
    requires n <= limit && n <= |pending|
    requires forall i :: 0 <= i < n ==> pending[i].Data? && !IsLineEnd(pending[i])
    requires n < limit && n < |pending| ==> pending[n].Error? || IsLineEnd(pending[n])
    ensures Scan(pending, limit) == n
  {
    if n > 0 {
      ScanUnique(pending[1..], limit - 1, n - 1);
    }
  }

  /** The first n bytes. */
  function BytesOf(events: seq<Event>, n: nat): (b: seq<Byte>)
    requires n <= |events| && forall i :: 0 <= i < n ==> events[i].Data?
    ensures |b| == n && forall i :: 0 <= i < n ==> b[i] == events[i].b
  {
    seq(n, i requires 0 <= i < n => events[i].b)
  }

  class ByteSource {
    var pending: seq<Event>

    constructor (events: seq<Event>)
      ensures pending == events
    {
      pending := events;
    }

    /** Returns -1 for a failed call, 0 at the end of the stream, and 1 with the next byte otherwise. */
    method Read1() returns (what: int, b: Byte)
      modifies this
      ensures old(pending) == [] ==> what == 0 && pending == []
      ensures old(pending) != [] ==> pending == old(pending)[1..] && what == (if old(pending)[0].Error? then -1 else 1)
      ensures what == 1 ==> b == old(pending)[0].b
    {
      b := NUL;
      if pending == [] {
        return 0, b;
      }
      var e := pending[0];
      pending := pending[1..];
      if e.Error? {
        return -1, b;
      }
      return 1, e.b;
    }
  }
}

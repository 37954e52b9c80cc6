/** Bytes, C strings and the messages exchanged between the servers (Server.h). */
module Messages {

  import opened Options

  type Byte = b: int | 0 <= b < 256

  const NUL: Byte := 0

  datatype Status = OK | ERR | FAIL | SYNC_FAIL | SYNC_READ | SYNC_WRITE | SYNC_SEEK | SYNC_CLOSE | SYNC_OPEN

  datatype MessageData = MessageData(status: Status, code: int, data: seq<Byte>)

  datatype Message = Message(data: Option<MessageData>)

  function Msg(status: Status, code: int, data: seq<Byte>): Message {
    Message(Some(MessageData(status, code, data)))
  }

  predicate NulFree(s: seq<Byte>) {
    forall i :: 0 <= i < |s| ==> s[i] != NUL
  }

  /** What a function that takes a C string sees of s: the bytes before the first NUL. */
  function CStr(s: seq<Byte>): (c: seq<Byte>)
    ensures NulFree(c) && c <= s
    ensures |c| < |s| ==> s[|c|] == NUL
  {
    if s == [] || s[0] == NUL then [] else [s[0]] + CStr(s[1..])
  }

  lemma {:induction false} CStrUnique(s: seq<Byte>, c: seq<Byte>)
    requires NulFree(c) && c <= s && (|c| < |s| ==> s[|c|] == NUL)
    ensures CStr(s) == c
  {
    if c != [] {
      CStrUnique(s[1..], c[1..]);
    }
  }

  function Zeros(n: nat): (z: seq<Byte>)
    ensures |z| == n && forall i :: 0 <= i < n ==> z[i] == NUL
  {
    seq(n, _ => NUL)
  }

  /** The bytes of a literal whose characters are ASCII. */
  function Bytes(s: string): (b: seq<Byte>)
    ensures |b| == |s| && forall i :: 0 <= i < |s| ==> b[i] == s[i] as int % 256
  {
    seq(|s|, i requires 0 <= i < |s| => s[i] as int % 256)
  }
}

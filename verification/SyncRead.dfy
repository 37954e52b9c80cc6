/** The reading operations of FileAccesser.cpp and SyncFileAccessor.cpp, step by step. */
module SyncRead {

  import opened Options
  import opened Messages
  import opened Vote
  import opened LockProtocol
  import opened FileClients

  /** What the operating system's read returns for a buffer of some size. */
  datatype ReadResult = Got(data: seq<Byte>) | Failed(errno: int, text: seq<Byte>)

  /** What SyncFileAccessor::read_w sends to the peers. */
  datatype PeerCall = Seek(offset: int) | Write(data: seq<Byte>)

  const MAX_LEN: nat := 1024
  const ENOENT := 2
  const NOT_OPENED := Msg(ERR, ENOENT, Bytes("File not opened"))

  function BufferSize(bytes: nat): nat {
    if bytes > MAX_LEN then MAX_LEN else bytes
  }

  predicate FitsRequest(bytes: nat, os: ReadResult) {
    os.Got? ==> |os.data| <= BufferSize(bytes)
  }

  /** FileAccessor::i_read as a function of the system's answer. */
  function LocalRead(bytes: nat, os: ReadResult): Message
    requires FitsRequest(bytes, os)
  {
    match os
    case Failed(errno, text) => Msg(FAIL, errno, text)
    case Got(data) => Msg(OK, |data|, data + Zeros(BufferSize(bytes) - |data|))
  }

  /** FileAccessor::i_read: a buffer of at most MAX_LEN zero bytes, overwritten from the front by the data read. */
  method IRead(bytes: nat, os: ReadResult) returns (m: Message)
    requires FitsRequest(bytes, os)
    ensures m == LocalRead(bytes, os)
    ensures m.data.value.status == OK <==> os.Got?
    ensures os.Failed? ==> m == Msg(FAIL, os.errno, os.text)
    ensures os.Got? ==> m.data.value.code == |os.data| && os.data <= m.data.value.data
    ensures os.Got? ==> |m.data.value.data| == if bytes > 1024 then 1024 else bytes
    ensures os.Got? ==> forall i :: |os.data| <= i < |m.data.value.data| ==> m.data.value.data[i] == NUL
    ensures os.Got? && NulFree(os.data) ==> CStr(m.data.value.data) == os.data
  {
    var n := bytes;
    if n > MAX_LEN {
      n := MAX_LEN;
    }
    var buf := Zeros(n);
    if os.Failed? {
      return Msg(FAIL, os.errno, os.text);
    }
    buf := os.data + buf[|os.data|..];
    assert buf == os.data + Zeros(n - |os.data|);
    if NulFree(os.data) {
      CStrUnique(buf, os.data);
    }
    m := Msg(OK, |os.data|, buf);
  }

  function LocalReply(passes: bool, bytes: nat, os: ReadResult): Message
    requires FitsRequest(bytes, os)
  {
    if passes then LocalRead(bytes, os) else NOT_OPENED
  }

  /** FileAccessor::read_w; calls are the lock calls it makes, in order. */
  method FileReadW(l: LockId, passes: bool, bytes: nat, os: ReadResult) returns (m: Message, calls: seq<Op>)
    requires FitsRequest(bytes, os)
    ensures m == LocalReply(passes, bytes, os)
    ensures calls == ReadOps(l, passes)
    ensures passes && os.Failed? ==> m == Msg(FAIL, os.errno, os.text)
    ensures m.data.Some? && (m.data.value.status == OK <==> passes && os.Got?)
    ensures passes && os.Got? ==> m.data.value.code == |os.data| && os.data <= m.data.value.data
    ensures passes && os.Got? && NulFree(os.data) ==> CStr(m.data.value.data) == os.data
    ensures m.data.value.status == ERR <==> calls == []
  {
    calls := [];
    if !passes {
      return NOT_OPENED, calls;
    }
    calls := calls + [StartRead(l)];
    m := IRead(bytes, os);
    calls := calls + [EndRead(l)];
  }

  /** The first loop of read_w: the longest text and the number of good and failed replies. */
  method Survey(replies: seq<Message>) returns (maxLength: nat, failCounter: nat, okCounter: nat)
    ensures maxLength == MaxLength(replies)
    ensures failCounter == Tally(replies, IsFail()) && okCounter == Tally(replies, IsOk())
  {
    maxLength, failCounter, okCounter := 0, 0, 0;
    for k := 0 to |replies|
      invariant failCounter + Tally(replies[k..], IsFail()) == Tally(replies, IsFail())
      invariant okCounter + Tally(replies[k..], IsOk()) == Tally(replies, IsOk())
      invariant MaxLength(replies) == if maxLength > MaxLength(replies[k..]) then maxLength else MaxLength(replies[k..])
    {
      var message := replies[k];
      assert replies[k..][0] == message && replies[k..][1..] == replies[k + 1..];
      if message.data.None? {
        continue;
      }
      if message.data.value.status == OK {
        okCounter := okCounter + 1;
      } else {
        failCounter := failCounter + 1;
      }
      if |message.data.value.data| > maxLength {
        maxLength := |message.data.value.data|;
      }
    }
  }

  /** The inner counting loop of read_w: how many replies carry each byte at index i. */
  method CountAt(replies: seq<Message>, i: nat) returns (counts: array<int>)
    requires forall k :: 0 <= k < |replies| ==> replies[k].data.Some?
    ensures fresh(counts) && counts.Length == 256
    ensures forall b: Byte :: counts[b] == Votes(replies, i, b)
  {
    counts := new int[256](_ => 0);
    for k := 0 to |replies|
      invariant forall b: Byte :: counts[b] + Votes(replies[k..], i, b) == Votes(replies, i, b)
    {
      var str := replies[k].data.value.data;
      assert replies[k..][0] == replies[k] && replies[k..][1..] == replies[k + 1..];
      if i < |str| {
        counts[str[i]] := counts[str[i]] + 1;
      }
    }
  }

  /** The argmax loop of read_w: the smallest byte with the highest count, or NUL when all counts are zero. */
  method MostCommon(counts: array<int>) returns (mostCommon: Byte)
    requires counts.Length == 256 && forall b :: 0 <= b < 256 ==> counts[b] >= 0
    ensures forall b: Byte :: counts[b] <= counts[mostCommon] && (b < mostCommon ==> counts[b] < counts[mostCommon])
  {
    mostCommon := NUL;
    var maxCount := 0;
    for j := 0 to counts.Length
      invariant maxCount >= 0
      invariant maxCount == 0 ==> mostCommon == NUL
      invariant maxCount > 0 ==> mostCommon < j && counts[mostCommon] == maxCount
      invariant forall b :: 0 <= b < j ==> counts[b] <= maxCount && (b < mostCommon ==> counts[b] < maxCount)
    {
      if counts[j] > maxCount {
        maxCount := counts[j];
        mostCommon := j;
      }
    }
  }

  /**
   SyncFileAccessor::read_w on the replies of the peers.  The reply of the local copy is appended last.
   A reply without data is tolerated only where the source does not look into it.
   */
  method SyncReadW(l: LockId, passes: bool, inner: bool, peers: seq<Message>, bytes: nat, os: ReadResult, v: Variant)
    returns (m: Message, calls: seq<Op>, repair: seq<PeerCall>)
    requires FitsRequest(bytes, os)
    requires var replies := peers + [LocalReply(inner, bytes, os)];
             !Refused(replies) && MaxLength(replies) > 0 ==> forall k :: 0 <= k < |replies| ==> replies[k].data.Some?
    ensures !passes ==> m == NOT_OPENED && calls == [] && repair == []
    ensures passes ==>
              var local := LocalReply(inner, bytes, os);
              var refused := Refused(peers + [local]);
              && IsAnswer(peers + [local], bytes, m)
              && m.data.Some? && (m.data.value.status == OK <==> !refused)
              && (refused ==> m == Msg(FAIL, bytes, REFUSAL))
              && (!refused ==> m.data.value.code == |m.data.value.data| && m.data.value.data == Merge(peers + [local]))
              && calls == SyncReadOps(l, inner, refused, v)
              && repair == if refused then [Seek(0 - bytes), Write(local.data.value.data)] else []
  {
    calls, repair := [], [];
    if !passes {
      return NOT_OPENED, calls, repair;
    }
    calls := calls + [StartRead(l)];
    var local, localCalls := FileReadW(l, inner, bytes, os);
    calls := calls + localCalls;
    var allBytes := peers + [local];
    var maxLength, failCounter, okCounter := Survey(allBytes);
    if failCounter > okCounter {
      repair := [Seek(0 - bytes), Write(allBytes[|allBytes| - 1].data.value.data)];
      calls := calls + [if v.releaseOnFail then EndRead(l) else ReturnFail(l)];
      return Msg(FAIL, bytes, REFUSAL), calls, repair;
    }
    var result: seq<Byte> := [];
    var i := 0;
    while i < maxLength
      invariant i == |result| <= maxLength
      invariant forall k :: 0 <= k < i ==> IsWinner(allBytes, k, result[k]) && result[k] != NUL
    {
      var counts := CountAt(allBytes, i);
      var mostCommon := MostCommon(counts);
      assert IsWinner(allBytes, i, mostCommon);
      if mostCommon == NUL {
        result := result + [mostCommon];
        break;
      }
      result := result + [mostCommon];
      i := i + 1;
    }
    assert IsMerge(allBytes, result);
    MergeUnique(allBytes, result);
    calls := calls + [EndRead(l)];
    m := Msg(OK, |result|, result);
  }
}

/** What a replicated read returns when the replicas agree, and what it does with the peers' replies as written. */
module Agreement {

  import opened Options
  import opened Messages
  import opened Vote
  import opened LockProtocol
  import opened LockTheorems
  import opened FileClients
  import opened SyncRead

  /** How asking one peer ends: no reply at all, or the bytes received. */
  datatype PeerOutcome = NoReply | Received(data: seq<Byte>)

  /**
   readSyncClient.  It builds an OK reply from the received buffer, cut at the first NUL, and then overwrites it
   with SYNC_FAIL; overwrites says whether that last assignment is there.
   */
  function PeerReply(o: PeerOutcome, overwrites: bool): Message {
    if o.NoReply? || overwrites then Msg(SYNC_FAIL, 0, [])
    else Msg(OK, |o.data|, CStr(o.data))
  }

  function PeerReplies(os: seq<PeerOutcome>, overwrites: bool): (r: seq<Message>)
    ensures |r| == |os| && forall i :: 0 <= i < |r| ==> r[i] == PeerReply(os[i], overwrites)
  {
    seq(|os|, i requires 0 <= i < |os| => PeerReply(os[i], overwrites))
  }

  /**
   readSyncClient, from the descriptor of the connection on: sent and received are what sending the request and
   receiving into a zeroed buffer of 1024 bytes and one more return, buffer what that then holds.
   */
  method ReadSyncClient(sd: int, sent: int, received: int, buffer: seq<Byte>, overwrites: bool) returns (m: Message)
    requires received <= 1024 && |buffer| == 1025 && forall i :: 0 <= i < 1025 && i >= received ==> buffer[i] == NUL
    ensures m == PeerReply(if sd < 0 || sent < 0 || received < 0 then NoReply else Received(buffer[..received]),
                           overwrites)
    ensures overwrites || sd < 0 || sent < 0 || received < 0 ==> m == Msg(SYNC_FAIL, 0, [])
    ensures !overwrites && sd >= 0 && sent >= 0 && received >= 0 ==> m == Msg(OK, received, CStr(buffer))
  {
    if sd < 0 {
      return Msg(SYNC_FAIL, 0, []);
    }
    if sent < 0 {
      return Msg(SYNC_FAIL, 0, []);
    }
    if received < 0 {
      return Msg(SYNC_FAIL, 0, []);
    }
    m := Msg(OK, received, CStr(buffer));
    CStrUnique(buffer, CStr(buffer[..received]));
    if overwrites {
      m := Msg(SYNC_FAIL, 0, []);
    }
  }

  function Missing(os: seq<PeerOutcome>): nat {
    if os == [] then 0 else (if os[0].NoReply? then 1 else 0) + Missing(os[1..])
  }

  // ---------------------------------------------------------------- replies that only carry prefixes of one text

  /** The text up to and including its first NUL. */
  function ThroughNul(s: seq<Byte>): seq<Byte> {
    CStr(s) + if |CStr(s)| < |s| then [NUL] else []
  }

  lemma {:induction false} LastVotes(peers: seq<Message>, local: Message, i: nat, b: Byte)
    ensures Votes(peers + [local], i, b) == Votes(peers, i, b) + (if Carries(i, b)(local) then 1 else 0)
  {
    TallyAppend(peers, [local], Carries(i, b));
  }

  /**
   If each peer carries nothing or exactly the local text before its first NUL, the outcome is the local text
   through its first NUL.
   */
  lemma {:induction false} PeersEchoLocal(peers: seq<Message>, local: Message)
    requires local.data.Some?
    requires forall i :: 0 <= i < |peers| ==> Length(peers[i]) == 0 || Says(CStr(local.data.value.data))(peers[i])
    ensures Merge(peers + [local]) == ThroughNul(local.data.value.data)
  {
    var text := local.data.value.data;
    var r := ThroughNul(text);
    var replies := peers + [local];
    forall i | 0 <= i < |r| ensures IsWinner(replies, i, r[i]) {
      forall c: Byte | c != r[i] ensures Votes(replies, i, c) < Votes(replies, i, r[i]) {
        TallyZero(peers, Carries(i, c));
        LastVotes(peers, local, i, c);
        LastVotes(peers, local, i, r[i]);
      }
    }
    MaxLengthBounds(replies);
    assert replies[|peers|] == local;
    MergeUnique(replies, r);
  }

  // ---------------------------------------------------------------- agreement

  lemma {:induction false} AnswerText(replies: seq<Message>, bytes: int, m: Message)
    requires IsAnswer(replies, bytes, m)
    ensures m.data.Some? && (m.data.value.status == OK <==> !Refused(replies))
    ensures m.data.value.status == OK ==> m.data.value.data == Merge(replies)
    ensures m.data.value.status == OK ==> m.data.value.code == |m.data.value.data|
    ensures m.data.value.status != OK ==> m == Msg(FAIL, bytes, REFUSAL)
  {
    MergeUnique(replies, m.data.value.data);
  }

  lemma {:induction false} LocalCounts(peers: seq<Message>, local: Message)
    ensures Tally(peers + [local], IsOk()) == Tally(peers, IsOk()) + (if IsOk()(local) then 1 else 0)
    ensures Tally(peers + [local], IsFail()) == Tally(peers, IsFail()) + (if IsFail()(local) then 1 else 0)
  {
    TallyAppend(peers, [local], IsOk());
    TallyAppend(peers, [local], IsFail());
  }

  lemma {:induction false} QuorumCount(os: seq<PeerOutcome>)
    ensures Tally(PeerReplies(os, false), IsFail()) == Missing(os)
    ensures Tally(PeerReplies(os, false), IsOk()) == |os| - Missing(os)
  {
    if os != [] {
      QuorumCount(os[1..]);
      assert PeerReplies(os, false)[1..] == PeerReplies(os[1..], false);
    }
  }

  lemma {:induction false} AgreedText(os: seq<PeerOutcome>, s: seq<Byte>, bytes: nat)
    requires NulFree(s) && |s| <= BufferSize(bytes)
    requires forall i :: 0 <= i < |os| ==> os[i].NoReply? || CStr(os[i].data) == s
    ensures Merge(PeerReplies(os, false) + [LocalReply(true, bytes, Got(s))])
         == if |s| == BufferSize(bytes) then s else s + [NUL]
  {
    var peers := PeerReplies(os, false);
    var local := LocalReply(true, bytes, Got(s));
    CStrUnique(local.data.value.data, s);
    PeersEchoLocal(peers, local);
  }

  lemma {:induction false} AgreedQuorum(os: seq<PeerOutcome>, local: Message)
    requires IsOk()(local)
    ensures Refused(PeerReplies(os, false) + [local]) <==> Missing(os) > |os| - Missing(os) + 1
  {
    QuorumCount(os);
    LocalCounts(PeerReplies(os, false), local);
  }

  /**
   End-to-end agreement.  When the local copy and every peer that answers hold the same NUL-free s, the read is
   refused exactly if the silent peers outnumber the others with the local copy; otherwise it returns s, followed
   by one NUL when s does not fill the request.
   */
  lemma {:induction false} ReplicasAgree(os: seq<PeerOutcome>, s: seq<Byte>, bytes: nat, m: Message)
    requires NulFree(s) && |s| <= BufferSize(bytes)
    requires forall i :: 0 <= i < |os| ==> os[i].NoReply? || CStr(os[i].data) == s
    requires IsAnswer(PeerReplies(os, false) + [LocalReply(true, bytes, Got(s))], bytes, m)
    ensures m.data.value.status == OK <==> Missing(os) <= |os| - Missing(os) + 1
    ensures m.data.value.status == OK ==> m.data.value.data == if |s| == BufferSize(bytes) then s else s + [NUL]
    ensures m.data.value.status == OK ==> m.data.value.code == if |s| == BufferSize(bytes) then |s| else |s| + 1
    ensures m.data.value.status != OK ==> m == Msg(FAIL, bytes, REFUSAL)
  {
    var peers := PeerReplies(os, false);
    var local := LocalReply(true, bytes, Got(s));
    AgreedQuorum(os, local);
    AgreedText(os, s, bytes);
    AnswerText(peers + [local], bytes, m);
  }

  // ---------------------------------------------------------------- the replies as written

  lemma {:induction false} AllFail(os: seq<PeerOutcome>)
    ensures Tally(PeerReplies(os, true), IsFail()) == |os| && Tally(PeerReplies(os, true), IsOk()) == 0
  {
    if os != [] {
      AllFail(os[1..]);
      assert PeerReplies(os, true)[1..] == PeerReplies(os[1..], true);
    }
  }

  /**
   As written, every peer's reply ends up as SYNC_FAIL: the read is refused exactly when there are at least
   two peers or the local read failed, and otherwise it returns the local text through its first NUL.
   */
  lemma {:induction false} RepliesAsWritten(os: seq<PeerOutcome>, inner: bool, bytes: nat, read: ReadResult, m: Message)
    requires FitsRequest(bytes, read)
    requires IsAnswer(PeerReplies(os, true) + [LocalReply(inner, bytes, read)], bytes, m)
    ensures m.data.value.status == OK <==> |os| <= 1 && inner && read.Got?
    ensures m.data.value.status == OK ==>
              && m.data.value.data == ThroughNul(LocalReply(inner, bytes, read).data.value.data)
              && m.data.value.code == |m.data.value.data|
    ensures m.data.value.status != OK ==> m == Msg(FAIL, bytes, REFUSAL)
  {
    var peers := PeerReplies(os, true);
    var local := LocalReply(inner, bytes, read);
    AllFail(os);
    LocalCounts(peers, local);
    PeersEchoLocal(peers, local);
    AnswerText(peers + [local], bytes, m);
  }

  // ---------------------------------------------------------------- what a refused read does to the lock

  /** A refused replicated read, anywhere among a client's calls, is a FAIL return in its program. */
  lemma {:induction false} RefusedReadFails(calls: seq<Call>, hs: Handles, v: Variant, i: nat)
    requires CallsOk(calls, hs) && !v.releaseOnFail
    requires i < |calls| && calls[i].SyncReadW? && calls[i].passes && calls[i].fails
    ensures Fails(ProgramOf(calls, hs, v), hs.locks[calls[i].h]) >= 1
    decreases i
  {
    var l := hs.locks[calls[i].h];
    var ops, rest := CallOps(calls[0], hs, v), ProgramOf(calls[1..], hs, v);
    FailsAppend(ops, rest, l);
    if i > 0 {
      RefusedReadFails(calls[1..], hs, v, i - 1);
    } else {
      FailsAppend(ops[..|ops| - 1], [ReturnFail(l)], l);
      assert ops == ops[..|ops| - 1] + [ReturnFail(l)];
      assert Fails([ReturnFail(l)], l) == 1;
    }
  }
}

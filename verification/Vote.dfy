/**
 The replicated read of SyncFileAccessor.cpp: what SyncFileAccessor::read_w answers, stated on its replies.

 The merged text is a bytewise plurality vote.  Byte i goes to the smallest value among those carried by most
 replies longer than i; the text ends after the first index that NUL wins, or else at the longest reply's length.
 */
module Vote {

  import opened Options
  import opened Messages

  // ---------------------------------------------------------------- counting replies

  function Tally(replies: seq<Message>, p: Message -> bool): nat {
    if replies == [] then 0 else Tally(replies[1..], p) + (if p(replies[0]) then 1 else 0)
  }

  function HasData(): Message -> bool {
    (m: Message) => m.data.Some?
  }

  function IsOk(): Message -> bool {
    (m: Message) => m.data.Some? && m.data.value.status == OK
  }

  function IsFail(): Message -> bool {
    (m: Message) => m.data.Some? && m.data.value.status != OK
  }

  function Carries(i: nat, b: Byte): Message -> bool {
    (m: Message) => m.data.Some? && i < |m.data.value.data| && m.data.value.data[i] == b
  }

  function Says(s: seq<Byte>): Message -> bool {
    (m: Message) => m.data.Some? && m.data.value.data == s
  }

  function Votes(replies: seq<Message>, i: nat, b: Byte): nat {
    Tally(replies, Carries(i, b))
  }

  function Length(m: Message): nat {
    if m.data.Some? then |m.data.value.data| else 0
  }

  function MaxLength(replies: seq<Message>): nat {
    if replies == [] then 0
    else if Length(replies[0]) > MaxLength(replies[1..]) then Length(replies[0])
    else MaxLength(replies[1..])
  }

  // ---------------------------------------------------------------- the declarative vote

  /** b has the most votes at index i, and fewer-valued bytes have strictly less. */
  predicate IsWinner(replies: seq<Message>, i: nat, b: Byte) {
    forall c: Byte ::
      Votes(replies, i, c) <= Votes(replies, i, b) && (c < b ==> Votes(replies, i, c) < Votes(replies, i, b))
  }

  predicate IsMerge(replies: seq<Message>, r: seq<Byte>) {
    && |r| <= MaxLength(replies)
    && (forall i :: 0 <= i < |r| ==> IsWinner(replies, i, r[i]))
    && (forall i :: 0 <= i < |r| - 1 ==> r[i] != NUL)
    && (|r| < MaxLength(replies) ==> r != [] && r[|r| - 1] == NUL)
  }

  /** The status test: more failed than good replies. */
  predicate Refused(replies: seq<Message>) {
    Tally(replies, IsFail()) > Tally(replies, IsOk())
  }

  const REFUSAL := Bytes("Most peers failed to sync. Trying to restore peers using local data")

  predicate IsAnswer(replies: seq<Message>, bytes: int, m: Message) {
    if Refused(replies) then m == Msg(FAIL, bytes, REFUSAL)
    else m.data.Some? && var d := m.data.value; d.status == OK && d.code == |d.data| && IsMerge(replies, d.data)
  }

  // ---------------------------------------------------------------- there is exactly one answer

  /** The best of the first n byte values. */
  function BestBelow(replies: seq<Message>, i: nat, n: nat): (b: Byte)
    requires n <= 256
    ensures n > 0 ==> b < n
    ensures forall c: Byte :: c < n ==>
              Votes(replies, i, c) <= Votes(replies, i, b) && (c < b ==> Votes(replies, i, c) < Votes(replies, i, b))
  {
    if n == 0 then NUL
    else
      var b := BestBelow(replies, i, n - 1);
      if n == 1 || Votes(replies, i, n - 1) > Votes(replies, i, b) then n - 1 else b
  }

  function MergeFrom(replies: seq<Message>, i: nat): (r: seq<Byte>)
    decreases MaxLength(replies) - i
  {
    if i >= MaxLength(replies) then []
    else
      var b := BestBelow(replies, i, 256);
      if b == NUL then [NUL] else [b] + MergeFrom(replies, i + 1)
  }

  function Merge(replies: seq<Message>): seq<Byte> {
    MergeFrom(replies, 0)
  }

  /** r is what the vote appends from index i on. */
  predicate IsMergeFrom(replies: seq<Message>, i: nat, r: seq<Byte>) {
    && i + |r| <= MaxLength(replies)
    && (forall k :: 0 <= k < |r| ==> IsWinner(replies, i + k, r[k]))
    && (forall k :: 0 <= k < |r| - 1 ==> r[k] != NUL)
    && (i + |r| < MaxLength(replies) ==> r != [] && r[|r| - 1] == NUL)
  }

  lemma PrependWinner(replies: seq<Message>, i: nat, b: Byte, r: seq<Byte>)
    requires IsWinner(replies, i, b) && b != NUL && IsMergeFrom(replies, i + 1, r)
    ensures IsMergeFrom(replies, i, [b] + r)
  {
    forall k | 0 <= k < |r| + 1 ensures IsWinner(replies, i + k, ([b] + r)[k]) {
      if k > 0 {
        assert IsWinner(replies, i + 1 + (k - 1), r[k - 1]);
      }
    }
  }

  lemma {:induction false} MergeFromSpec(replies: seq<Message>, i: nat)
    requires i <= MaxLength(replies)
    ensures IsMergeFrom(replies, i, MergeFrom(replies, i))
    decreases MaxLength(replies) - i
  {
    if i < MaxLength(replies) {
      var b := BestBelow(replies, i, 256);
      assert IsWinner(replies, i, b);
      if b != NUL {
        MergeFromSpec(replies, i + 1);
        PrependWinner(replies, i, b, MergeFrom(replies, i + 1));
      }
    }
  }

  lemma WinnerUnique(replies: seq<Message>, i: nat, b: Byte, c: Byte)
    requires IsWinner(replies, i, b) && IsWinner(replies, i, c)
    ensures b == c
  {
    assert b < c ==> Votes(replies, i, b) < Votes(replies, i, c);
    assert c < b ==> Votes(replies, i, c) < Votes(replies, i, b);
  }

  /** The vote has exactly one outcome. */
  lemma MergeUnique(replies: seq<Message>, r: seq<Byte>)
    ensures IsMerge(replies, r) <==> r == Merge(replies)
  {
    MergeFromSpec(replies, 0);
    var q := Merge(replies);
    assert IsMerge(replies, q) by {
      forall i | 0 <= i < |q| ensures IsWinner(replies, i, q[i]) {
        assert IsWinner(replies, 0 + i, q[i]);
      }
    }
    if IsMerge(replies, r) {
      var n := if |r| < |q| then |r| else |q|;
      forall i | 0 <= i < n ensures r[i] == q[i] {
        WinnerUnique(replies, i, r[i], q[i]);
      }
      assert |r| == |q|;
      assert r == q;
    }
  }

  /** The winner is the only byte that can end up at an index of the merged text. */
  lemma PrefixOfMerge(replies: seq<Message>, t: seq<Byte>)
    requires NulFree(t) && |t| <= MaxLength(replies)
    requires forall i :: 0 <= i < |t| ==> IsWinner(replies, i, t[i])
    ensures t <= Merge(replies)
    ensures Merge(replies) == t <==> MaxLength(replies) == |t|
  {
    var r := Merge(replies);
    MergeUnique(replies, r);
    var n := if |r| < |t| then |r| else |t|;
    forall i | 0 <= i < n ensures r[i] == t[i] {
      WinnerUnique(replies, i, r[i], t[i]);
    }
    assert r[..|t|] == t;
  }

  // ---------------------------------------------------------------- facts about tallies

  lemma {:induction false} TallyAppend(a: seq<Message>, b: seq<Message>, p: Message -> bool)
    ensures Tally(a + b, p) == Tally(a, p) + Tally(b, p)
  {
    if a == [] {
      assert a + b == b;
    } else {
      assert (a + b)[1..] == a[1..] + b;
      TallyAppend(a[1..], b, p);
    }
  }

  lemma RemoveOne(front: seq<Message>, x: Message, back: seq<Message>)
    ensures multiset(front + [x] + back) - multiset{x} == multiset(front + back)
  {
  }

  lemma TallyWithout(front: seq<Message>, x: Message, back: seq<Message>, p: Message -> bool)
    ensures Tally(front + [x] + back, p) == Tally(front + back, p) + (if p(x) then 1 else 0)
  {
    TallyAppend(front, back, p);
    TallyAppend(front + [x], back, p);
    TallyAppend(front, [x], p);
  }

  lemma {:induction false} TallyPermutation(a: seq<Message>, b: seq<Message>, p: Message -> bool)
    requires multiset(a) == multiset(b)
    ensures Tally(a, p) == Tally(b, p)
    decreases |a|
  {
    if a == [] {
      assert |multiset(b)| == 0;
    } else {
      var x := a[0];
      assert x in multiset(b);
      var j :| 0 <= j < |b| && b[j] == x;
      var front, back := b[..j], b[j + 1..];
      assert a == [] + [x] + a[1..] && [] + a[1..] == a[1..];
      assert b == front + [x] + back;
      RemoveOne([], x, a[1..]);
      RemoveOne(front, x, back);
      TallyPermutation(a[1..], front + back, p);
      TallyWithout(front, x, back, p);
    }
  }

  lemma {:induction false} TallyImplies(a: seq<Message>, p: Message -> bool, q: Message -> bool)
    requires forall i :: 0 <= i < |a| && p(a[i]) ==> q(a[i])
    ensures Tally(a, p) <= Tally(a, q)
  {
    if a != [] {
      TallyImplies(a[1..], p, q);
    }
  }

  lemma {:induction false} TallyDisjoint(a: seq<Message>, p: Message -> bool, q: Message -> bool)
    requires forall i :: 0 <= i < |a| ==> !(p(a[i]) && q(a[i]))
    ensures Tally(a, p) + Tally(a, q) <= |a|
  {
    if a != [] {
      TallyDisjoint(a[1..], p, q);
    }
  }

  lemma {:induction false} TallyZero(a: seq<Message>, p: Message -> bool)
    requires forall i :: 0 <= i < |a| ==> !p(a[i])
    ensures Tally(a, p) == 0
  {
    if a != [] {
      TallyZero(a[1..], p);
    }
  }

  lemma {:induction false} MaxLengthBounds(a: seq<Message>)
    ensures forall i :: 0 <= i < |a| ==> Length(a[i]) <= MaxLength(a)
    ensures MaxLength(a) > 0 ==> exists i :: 0 <= i < |a| && Length(a[i]) == MaxLength(a)
  {
    if a != [] {
      MaxLengthBounds(a[1..]);
      if Length(a[0]) > MaxLength(a[1..]) {
        assert Length(a[0]) == MaxLength(a);
      } else if MaxLength(a) > 0 {
        var i :| 0 <= i < |a[1..]| && Length(a[1..][i]) == MaxLength(a[1..]);
        assert Length(a[i + 1]) == MaxLength(a);
      }
    }
  }

  /** The merge depends only on the votes and the longest length. */
  lemma {:induction false} MergeCongruence(a: seq<Message>, b: seq<Message>)
    requires MaxLength(a) == MaxLength(b)
    requires forall i: nat, c: Byte :: Votes(a, i, c) == Votes(b, i, c)
    ensures Merge(a) == Merge(b)
  {
    var r := Merge(a);
    MergeUnique(a, r);
    forall i | 0 <= i < |r| ensures IsWinner(b, i, r[i]) {
      assert IsWinner(a, i, r[i]);
    }
    MergeUnique(b, r);
  }

  // ---------------------------------------------------------------- what the vote guarantees

  /** The answer depends on the replies as a multiset, not on the order in which the peers are asked. */
  lemma OrderIndependence(a: seq<Message>, b: seq<Message>, bytes: int, m: Message)
    requires multiset(a) == multiset(b)
    ensures IsAnswer(a, bytes, m) <==> IsAnswer(b, bytes, m)
  {
    TallyPermutation(a, b, IsOk());
    TallyPermutation(a, b, IsFail());
    forall i: nat, c: Byte ensures Votes(a, i, c) == Votes(b, i, c) {
      TallyPermutation(a, b, Carries(i, c));
    }
    MaxLengthPermutation(a, b);
    MaxLengthPermutation(b, a);
    MergeCongruence(a, b);
    MergeUnique(a, if m.data.Some? then m.data.value.data else []);
    MergeUnique(b, if m.data.Some? then m.data.value.data else []);
  }

  lemma MaxLengthPermutation(a: seq<Message>, b: seq<Message>)
    requires multiset(a) == multiset(b)
    ensures MaxLength(a) <= MaxLength(b)
  {
    MaxLengthBounds(a);
    MaxLengthBounds(b);
    if MaxLength(a) > 0 {
      var i :| 0 <= i < |a| && Length(a[i]) == MaxLength(a);
      assert a[i] in multiset(b);
    }
  }

  /**
   Pointwise fault tolerance: a NUL-free text as long as the longest reply is the outcome when at each index
   more replies carry its byte than carry any other one.  No single reply needs to be right everywhere.
   */
  lemma PointwiseFaultTolerance(replies: seq<Message>, t: seq<Byte>)
    requires NulFree(t) && |t| == MaxLength(replies)
    requires forall i, c: Byte {:trigger Votes(replies, i, c)} :: 0 <= i < |t| && c != t[i] ==>
               Votes(replies, i, c) < Votes(replies, i, t[i])
    ensures Merge(replies) == t
  {
    forall i | 0 <= i < |t| ensures IsWinner(replies, i, t[i]) {
    }
    PrefixOfMerge(replies, t);
  }

  lemma {:induction false} TallyAllBut(a: seq<Message>, p: Message -> bool, k: nat)
    requires forall i :: 0 <= i < |a| && i != k ==> p(a[i])
    ensures Tally(a, p) >= if k < |a| then |a| - 1 else |a|
  {
    if a != [] {
      TallyAllBut(a[1..], p, if k == 0 then |a| else k - 1);
    }
  }

  /**
   At least three replies, as many as the text has bytes, reply k wrong at index k and only there, merge to the
   text, although none of them carries it.
   */
  lemma NoReplyIsRight(replies: seq<Message>, t: seq<Byte>, w: seq<Byte>)
    requires NulFree(t) && |replies| == |w| == |t| >= 3
    requires forall k :: 0 <= k < |t| ==>
               replies[k].data.Some? && w[k] != t[k] && replies[k].data.value.data == t[k := w[k]]
    ensures Merge(replies) == t
    ensures forall k :: 0 <= k < |t| ==> !Says(t)(replies[k])
  {
    MaxLengthBounds(replies);
    assert Length(replies[0]) == |t|;
    forall i, c: Byte {:trigger Votes(replies, i, c)} | 0 <= i < |t| && c != t[i]
      ensures Votes(replies, i, c) < Votes(replies, i, t[i])
    {
      TallyAllBut(replies, Carries(i, t[i]), i);
      TallyDisjoint(replies, Carries(i, t[i]), Carries(i, c));
    }
    PointwiseFaultTolerance(replies, t);
    forall k | 0 <= k < |t| ensures !Says(t)(replies[k]) {
      assert replies[k].data.value.data[k] == w[k];
    }
  }

  /**
   If more than half of the replies carry the same NUL-free s, the outcome starts with s, and it is s exactly if
   no reply is longer.
   */
  lemma MajorityPrefix(replies: seq<Message>, s: seq<Byte>)
    requires NulFree(s) && 2 * Tally(replies, Says(s)) > |replies|
    ensures s <= Merge(replies)
    ensures Merge(replies) == s <==> forall i :: 0 <= i < |replies| ==> Length(replies[i]) <= |s|
  {
    MaxLengthBounds(replies);
    SomeoneHolds(replies, s);
    forall i | 0 <= i < |s| ensures IsWinner(replies, i, s[i]) {
      TallyImplies(replies, Says(s), Carries(i, s[i]));
      forall c: Byte | c != s[i] ensures Votes(replies, i, c) < Votes(replies, i, s[i]) {
        TallyDisjoint(replies, Carries(i, s[i]), Carries(i, c));
      }
    }
    PrefixOfMerge(replies, s);
    if MaxLength(replies) > |s| {
      var i :| 0 <= i < |replies| && Length(replies[i]) == MaxLength(replies);
      assert Length(replies[i]) > |s|;
    }
  }

  lemma SomeoneHolds(replies: seq<Message>, s: seq<Byte>)
    requires Tally(replies, Says(s)) > 0
    ensures exists i :: 0 <= i < |replies| && Says(s)(replies[i])
    ensures |s| <= MaxLength(replies)
  {
    if forall i :: 0 <= i < |replies| ==> !Says(s)(replies[i]) {
      TallyZero(replies, Says(s));
    }
    MaxLengthBounds(replies);
  }

  /** Byte by byte the smaller one, as far as both go. */
  function Smaller(x: seq<Byte>, y: seq<Byte>): (r: seq<Byte>)
    requires |x| == |y|
    ensures |r| == |x| && forall i :: 0 <= i < |r| ==> r[i] == if x[i] < y[i] then x[i] else y[i]
  {
    seq(|x|, i requires 0 <= i < |x| => if x[i] < y[i] then x[i] else y[i])
  }

  /** A tie goes to the smaller byte: two NUL-free replies of one length merge to their bytewise minimum. */
  lemma {:induction false} TieGoesToSmaller(a: Message, b: Message)
    requires a.data.Some? && b.data.Some?
    requires var x, y := a.data.value.data, b.data.value.data; |x| == |y| && NulFree(x) && NulFree(y)
    ensures Merge([a, b]) == Smaller(a.data.value.data, b.data.value.data)
  {
    var t := Smaller(a.data.value.data, b.data.value.data);
    MaxLengthBounds([a, b]);
    assert Length([a, b][0]) == Length([a, b][1]) == |t|;
    forall i | 0 <= i < |t| ensures IsWinner([a, b], i, t[i]) {
      forall c: Byte
        ensures Votes([a, b], i, c) == (if Carries(i, c)(a) then 1 else 0) + (if Carries(i, c)(b) then 1 else 0)
      {
        assert [a, b][1..] == [b] && [b][1..] == [];
        assert Tally([b], Carries(i, c)) == if Carries(i, c)(b) then 1 else 0;
      }
    }
    PrefixOfMerge([a, b], t);
  }

  // ---------------------------------------------------------------- crashed peers

  /** The replies that carry some data. */
  function NonEmpty(replies: seq<Message>): seq<Message> {
    if replies == [] then []
    else (if Length(replies[0]) > 0 then [replies[0]] else []) + NonEmpty(replies[1..])
  }

  /** A failed peer answers with empty data, which never changes the merged bytes. */
  lemma CrashTolerance(replies: seq<Message>)
    ensures Merge(replies) == Merge(NonEmpty(replies))
  {
    forall i: nat, c: Byte ensures Votes(replies, i, c) == Votes(NonEmpty(replies), i, c) {
      NonEmptyVotes(replies, i, c);
    }
    NonEmptyMaxLength(replies);
    MergeCongruence(replies, NonEmpty(replies));
  }

  lemma {:induction false} NonEmptyVotes(replies: seq<Message>, i: nat, c: Byte)
    ensures Votes(replies, i, c) == Votes(NonEmpty(replies), i, c)
  {
    if replies != [] {
      NonEmptyVotes(replies[1..], i, c);
      TallyAppend(if Length(replies[0]) > 0 then [replies[0]] else [], NonEmpty(replies[1..]), Carries(i, c));
    }
  }

  lemma {:induction false} NonEmptyMaxLength(replies: seq<Message>)
    ensures MaxLength(replies) == MaxLength(NonEmpty(replies))
  {
    if replies != [] {
      NonEmptyMaxLength(replies[1..]);
      if Length(replies[0]) > 0 {
        assert NonEmpty(replies) == [replies[0]] + NonEmpty(replies[1..]);
        assert NonEmpty(replies)[1..] == NonEmpty(replies[1..]);
      } else {
        assert NonEmpty(replies) == NonEmpty(replies[1..]);
      }
    }
  }

  /**
   The read succeeds exactly when at least half of the replies with data are OK.  A good answer carries the number
   of its bytes, a refusal the number asked for.
   */
  lemma OkQuorum(replies: seq<Message>, bytes: int, m: Message)
    requires IsAnswer(replies, bytes, m)
    ensures m.data.value.status == OK <==> 2 * Tally(replies, IsOk()) >= Tally(replies, HasData())
    ensures m.data.value.status == OK ==> m.data.value.code == |m.data.value.data| <= MaxLength(replies)
    ensures m.data.value.status != OK ==> m == Msg(FAIL, bytes, REFUSAL)
  {
    DataBearing(replies);
  }

  lemma {:induction false} DataBearing(replies: seq<Message>)
    ensures Tally(replies, HasData()) == Tally(replies, IsOk()) + Tally(replies, IsFail())
  {
    if replies != [] {
      DataBearing(replies[1..]);
    }
  }
}

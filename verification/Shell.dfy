/** The shell server of ShellServ.cpp: the in-place tokenizer, the message loop and the session. */
module Shell {

  import opened Options
  import opened Messages
  import opened MessageText
  import opened Streams

  // ---------------------------------------------------------------- split

  function Spaces(t: seq<Byte>): nat {
    if t == [] then 0 else (if t[0] == SPACE then 1 else 0) + Spaces(t[1..])
  }

  /** Where words start behind a space, for a text that begins at position base. */
  function Breaks(t: seq<Byte>, base: nat): (b: seq<nat>)
    ensures |b| == Spaces(t)
  {
    if t == [] then []
    else (if t[0] == SPACE then [base + 1] else []) + Breaks(t[1..], base + 1)
  }

  /** Where the words of t start: at its beginning and behind each space. */
  function Starts(t: seq<Byte>, base: nat): (b: seq<nat>)
    ensures |b| == Spaces(t) + 1
  {
    [base] + Breaks(t, base)
  }

  /** The words of t: the stretches between its spaces, empty ones included. */
  function Words(t: seq<Byte>): (w: seq<seq<Byte>>)
    ensures |w| == Spaces(t) + 1
  {
    if t == [] then [[]]
    else
      var w := Words(t[1..]);
      if t[0] == SPACE then [[]] + w else [[t[0]] + w[0]] + w[1..]
  }

  /** The words put together with single spaces. */
  function Join(words: seq<seq<Byte>>): seq<Byte>
    requires words != []
  {
    if |words| == 1 then words[0] else words[0] + [SPACE] + Join(words[1..])
  }

  lemma JoinPrepend(c: Byte, w: seq<seq<Byte>>)
    requires w != []
    ensures Join([[c] + w[0]] + w[1..]) == [c] + Join(w)
  {
    assert ([[c] + w[0]] + w[1..])[1..] == w[1..];
  }

  lemma JoinEmpty(w: seq<seq<Byte>>)
    requires w != []
    ensures Join([[]] + w) == [SPACE] + Join(w)
  {
    assert ([[]] + w)[1..] == w;
  }

  /** Joining the words with single spaces restores the command. */
  lemma {:induction false} JoinWords(t: seq<Byte>)
    ensures Join(Words(t)) == t
  {
    if t != [] {
      JoinWords(t[1..]);
      JoinPrepend(t[0], Words(t[1..]));
      JoinEmpty(Words(t[1..]));
      assert t == [t[0]] + t[1..];
    }
  }

  /** No word contains a space. */
  lemma {:induction false} WordsHaveNoSpace(t: seq<Byte>, j: nat)
    requires j < |Words(t)|
    ensures SPACE !in Words(t)[j]
    decreases |t|
  {
    if t != [] {
      if t[0] == SPACE {
        if j > 0 {
          WordsHaveNoSpace(t[1..], j - 1);
        }
      } else {
        WordsHaveNoSpace(t[1..], j);
      }
    }
  }

  /** The buffer from base on holds the text t with its spaces overwritten by NUL, and a NUL. */
  predicate IsSplit(buffer: seq<Byte>, t: seq<Byte>, base: nat) {
    && base + |t| < |buffer| && buffer[base + |t|] == NUL
    && (forall k :: 0 <= k < |t| ==> buffer[base + k] == if t[k] == SPACE then NUL else t[k])
  }

  lemma CStrStep(buffer: seq<Byte>, base: nat)
    requires base < |buffer|
    ensures CStr(buffer[base..]) == if buffer[base] == NUL then [] else [buffer[base]] + CStr(buffer[base + 1..])
  {
    assert buffer[base..][1..] == buffer[base + 1..];
  }

  lemma SplitTail(buffer: seq<Byte>, t: seq<Byte>, base: nat)
    requires NulFree(t) && IsSplit(buffer, t, base) && t != []
    ensures NulFree(t[1..]) && IsSplit(buffer, t[1..], base + 1)
    ensures buffer[base] == if t[0] == SPACE then NUL else t[0]
  {
    forall k | 0 <= k < |t| - 1 ensures buffer[base + 1 + k] == if t[1..][k] == SPACE then NUL else t[1..][k] {
      assert t[1..][k] == t[1 + k];
    }
  }

  /** Reading the split buffer as a C string from the start of a word gives that word. */
  lemma {:induction false} WordInBuffer(buffer: seq<Byte>, t: seq<Byte>, base: nat, j: nat)
    requires NulFree(t) && IsSplit(buffer, t, base) && j < |Words(t)|
    ensures Starts(t, base)[j] <= |buffer| && CStr(buffer[Starts(t, base)[j]..]) == Words(t)[j]
    decreases |t|
  {
    CStrStep(buffer, base);
    if t != [] {
      SplitTail(buffer, t, base);
      if t[0] != SPACE {
        WordInBuffer(buffer, t[1..], base + 1, j);
      } else if j > 0 {
        WordInBuffer(buffer, t[1..], base + 1, j - 1);
      }
    }
  }

  lemma SuffixStep(t: seq<Byte>, i: nat)
    requires i < |t|
    ensures Spaces(t[i..]) == (if t[i] == SPACE then 1 else 0) + Spaces(t[i + 1..])
    ensures Breaks(t[i..], i) == (if t[i] == SPACE then [i + 1] else []) + Breaks(t[i + 1..], i + 1)
  {
    assert t[i..][1..] == t[i + 1..];
  }

  /** The pointers in argv are the starts of the words of t, followed by a null pointer. */
  predicate PointsAtWords(argv: seq<Option<nat>>, t: seq<Byte>) {
    && Spaces(t) + 1 < |argv|
    && (forall j :: 0 <= j <= Spaces(t) ==> argv[j] == Some(Starts(t, 0)[j]))
    && argv[Spaces(t) + 1] == None
  }

  /** split: cuts the command at its spaces, in place, and records where the words start. */
  method Split(command: array<Byte>, argv: array<Option<nat>>)
    requires |CStr(command[..])| < command.Length
    requires Spaces(CStr(command[..])) + 2 <= argv.Length
    modifies command, argv
    ensures IsSplit(command[..], CStr(old(command[..])), 0)
    ensures forall k :: |CStr(old(command[..]))| <= k < command.Length ==> command[k] == old(command[k])
    ensures PointsAtWords(argv[..], CStr(old(command[..])))
    ensures forall j :: Spaces(CStr(old(command[..]))) + 1 < j < argv.Length ==> argv[j] == old(argv[j])
  {
    ghost var was := command[..];
    ghost var t := CStr(was);
    ghost var starts := Starts(t, 0);
    var i, j := 0, 1;
    argv[0] := Some(0);
    assert t[0..] == t;
    while command[i] != NUL
      invariant 0 <= i <= |t| && 0 < j && j + Spaces(t[i..]) == |starts| < argv.Length
      invariant starts[j..] == Breaks(t[i..], i)
      invariant forall k :: 0 <= k < i ==> command[k] == if t[k] == SPACE then NUL else t[k]
      invariant forall k :: i <= k < command.Length ==> command[k] == was[k]
      invariant forall k :: 0 <= k < j ==> argv[k] == Some(starts[k])
      invariant forall k :: j <= k < argv.Length ==> argv[k] == old(argv[k])
      decreases |t| - i
    {
      assert i < |t| && was[i] == t[i];
      SuffixStep(t, i);
      if command[i] != SPACE {
        i := i + 1;
      } else {
        command[i] := NUL;
        i := i + 1;
        argv[j] := Some(i);
        assert starts[j..][0] == i && starts[j..][1..] == starts[j + 1..];
        j := j + 1;
      }
    }
    assert i == |t|;
    argv[j] := None;
  }

  /** After the split, the C string at each pointer is the word, and there are no more words than pointers. */
  lemma {:induction false} SplitYieldsWords(buffer: seq<Byte>, argv: seq<Option<nat>>, t: seq<Byte>)
    requires NulFree(t) && IsSplit(buffer, t, 0) && PointsAtWords(argv, t)
    ensures |Words(t)| < |argv| && argv[|Words(t)|] == None
    ensures forall j :: 0 <= j < |Words(t)| ==>
              argv[j].Some? && argv[j].value <= |buffer| && CStr(buffer[argv[j].value..]) == Words(t)[j]
  {
    forall j | 0 <= j < |Words(t)|
      ensures argv[j].Some? && argv[j].value <= |buffer| && CStr(buffer[argv[j].value..]) == Words(t)[j]
    {
      WordInBuffer(buffer, t, 0, j);
    }
  }

  // ---------------------------------------------------------------- receive_full_message

  const CLOSED := Bytes("closed")
  const CPRINT := Bytes("CPRINT")

  /** The bytes before the next line end, failed call or end of the stream. */
  function Head(pending: seq<Event>): seq<Byte> {
    BytesOf(pending, Scan(pending, |pending|))
  }

  predicate AtEnd(pending: seq<Event>) {
    Scan(pending, |pending|) == |pending|
  }

  function Tail(pending: seq<Event>): (rest: seq<Event>)
    ensures !AtEnd(pending) ==> |rest| < |pending|
  {
    if AtEnd(pending) then [] else pending[Scan(pending, |pending|) + 1..]
  }

  /** receive_full_message: one segment of the stream; a segment cut off by its end is replaced by "closed". */
  method ReceiveFullMessage(src: ByteSource) returns (message: seq<Byte>)
    modifies src
    ensures src.pending == Tail(old(src.pending))
    ensures message == if AtEnd(old(src.pending)) then CLOSED else Head(old(src.pending))
  {
    ghost var was := src.pending;
    var ended := false;
    message := [];
    while !ended
      invariant |message| <= |was|
      invariant forall k :: 0 <= k < |message| ==> was[k] == Data(message[k]) && !IsLineEnd(was[k])
      invariant !ended ==> src.pending == was[|message|..]
      invariant ended ==> |message| < |was| && IsLineEnd(was[|message|]) && src.pending == was[|message| + 1..]
      decreases |was| - |message|, !ended
    {
      var received, buffer := src.Read1();
      if received > 0 {
        if buffer == LF || buffer == CR {
          ended := true;
        } else {
          message := message + [buffer];
        }
      } else if received == 0 {
        ScanUnique(was, |was|, |message|);
        return CLOSED;
      } else {
        break;
      }
    }
    ScanUnique(was, |was|, |message|);
  }

  // ---------------------------------------------------------------- the session as a function of its requests

  /** What running a command gives: its output and the status the source derives for it. */
  datatype Result = Result(message: seq<Byte>, exitstatus: int)

  /** The k-th execution, of a command; the body of exec is not part of the model. */
  type Exec = (nat, seq<Byte>) -> Result

  /** The complete segments of the stream, as C strings. */
  function Segments(pending: seq<Event>): seq<seq<Byte>>
    decreases |pending|
  {
    if AtEnd(pending) then [] else [CStr(Head(pending))] + Segments(Tail(pending))
  }

  function Until(segments: seq<seq<Byte>>, word: seq<Byte>): seq<seq<Byte>> {
    if segments == [] || segments[0] == word then [] else [segments[0]] + Until(segments[1..], word)
  }

  /** The requests a session answers: the segments before the first "closed" or the end of the stream. */
  function Requests(pending: seq<Event>): seq<seq<Byte>> {
    Until(Segments(pending), CLOSED)
  }

  /** The requests that are commands, in order. */
  function Commands(requests: seq<seq<Byte>>): seq<seq<Byte>> {
    if requests == [] then []
    else
      Commands(requests[..|requests| - 1])
      + (if requests[|requests| - 1] == CPRINT then [] else [requests[|requests| - 1]])
  }

  const SUCCESSFUL := Bytes(" Command was successful\n")
  const NO_COMMAND := Bytes("ERR EIO No command issued\n") + [NUL]

  function CommandReply(r: Result): seq<Byte> {
    CStr(if r.exitstatus == 0 then Bytes("OK ") + ToString(r.exitstatus) + SUCCESSFUL
         else if r.exitstatus == -1 then Bytes("ERR : ") + r.message
         else Bytes("FAIL ") + ToString(r.exitstatus) + Bytes(" : ") + r.message)
  }

  /** The reply to CPRINT after a command that gave r. */
  function PrintReply(r: Result): seq<Byte> {
    if r.exitstatus != 0
    then CStr(Bytes("FAIL ") + ToString(r.exitstatus) + Bytes(" Preceding command failed : ") + r.message)
    else CStr(r.message) + CStr(Bytes("OK 0 Command was successful\n"))
  }

  /** Where a reply comes from. */
  datatype Answer = ByCommand(r: Result) | ByPrint(r: Result) | NoCommand

  function Render(a: Answer): seq<Byte> {
    match a
    case ByCommand(r) => CommandReply(r)
    case ByPrint(r) => PrintReply(r)
    case NoCommand => NO_COMMAND
  }

  /** The answer to a request when the commands in before have been run. */
  function AnswerAfter(before: seq<seq<Byte>>, request: seq<Byte>, exec: Exec): Answer {
    if request != CPRINT then ByCommand(exec(|before|, request))
    else if before == [] then NoCommand
    else ByPrint(exec(|before| - 1, before[|before| - 1]))
  }

  /**
   The answer to request i: a command is run and answered by its own result; CPRINT is answered by the result of
   the latest command before it, or by the no-command error exactly if there is none.
   */
  function AnswerTo(requests: seq<seq<Byte>>, i: nat, exec: Exec): Answer
    requires i < |requests|
  {
    AnswerAfter(Commands(requests[..i]), requests[i], exec)
  }

  /** The answers to the first n requests. */
  function Answers(requests: seq<seq<Byte>>, n: nat, exec: Exec): (r: seq<Answer>)
    requires n <= |requests|
    ensures |r| == n && forall i :: 0 <= i < n ==> r[i] == AnswerTo(requests, i, exec)
  {
    if n == 0 then [] else Answers(requests, n - 1, exec) + [AnswerTo(requests, n - 1, exec)]
  }

  function Rendered(answers: seq<Answer>, render: Answer -> seq<Byte>): (r: seq<seq<Byte>>)
    ensures |r| == |answers| && forall i :: 0 <= i < |r| ==> r[i] == render(answers[i])
  {
    if answers == [] then []
    else Rendered(answers[..|answers| - 1], render) + [render(answers[|answers| - 1])]
  }

  // ---------------------------------------------------------------- ShellServ::start

  lemma ClosedIsCString()
    ensures CStr(CLOSED) == CLOSED
  {
    CStrUnique(CLOSED, CLOSED);
  }

  lemma {:induction false} UntilStep(pending: seq<Event>, word: seq<Byte>)
    requires !AtEnd(pending)
    ensures var text := CStr(Head(pending));
            Until(Segments(pending), word) == if text == word then [] else [text] + Until(Segments(Tail(pending)), word)
  {
    assert Segments(pending)[1..] == Segments(Tail(pending));
  }

  /** The start of the loop in start: receive a message and compare it with "closed". */
  method ReceiveRequest(src: ByteSource) returns (closed: bool, text: seq<Byte>)
    modifies src
    ensures Requests(old(src.pending)) == if closed then [] else [text] + Requests(src.pending)
  {
    var message := ReceiveFullMessage(src);
    text := CStr(message);
    closed := text == CLOSED;
    if AtEnd(old(src.pending)) {
      ClosedIsCString();
    } else {
      UntilStep(old(src.pending), CLOSED);
    }
  }

  lemma {:induction false} CommandsStep(requests: seq<seq<Byte>>, i: nat)
    requires i < |requests|
    ensures Commands(requests[..i + 1])
         == Commands(requests[..i]) + (if requests[i] == CPRINT then [] else [requests[i]])
  {
    assert requests[..i + 1][..i] == requests[..i];
  }

  /** The branch of start that answers CPRINT. */
  method AnswerPrint(commandDone: bool, answer: Result) returns (reply: seq<Byte>)
    ensures reply == if commandDone then PrintReply(answer) else NO_COMMAND
  {
    if !commandDone {
      reply := NO_COMMAND;
    } else if answer.exitstatus != 0 {
      var finalResult := Bytes("FAIL ") + ToString(answer.exitstatus);
      finalResult := finalResult + Bytes(" Preceding command failed : ") + answer.message;
      reply := CStr(finalResult);
    } else {
      reply := CStr(answer.message);
      reply := reply + CStr(Bytes("OK 0 Command was successful\n"));
    }
  }

  /** The branch of start that answers a command. */
  method AnswerCommand(answer: Result) returns (reply: seq<Byte>)
    ensures reply == CommandReply(answer)
  {
    var finalResult;
    if answer.exitstatus == 0 {
      finalResult := Bytes("OK ") + ToString(answer.exitstatus) + SUCCESSFUL;
    } else if answer.exitstatus == -1 {
      finalResult := Bytes("ERR : ") + answer.message;
    } else {
      finalResult := Bytes("FAIL ") + ToString(answer.exitstatus) + Bytes(" : ") + answer.message;
    }
    reply := CStr(finalResult);
  }

  /** What answer and command_done know about the commands run so far. */
  predicate Remembers(commandDone: bool, answer: Result, executed: seq<seq<Byte>>, exec: Exec) {
    && (commandDone <==> executed != [])
    && (commandDone ==> answer == exec(|executed| - 1, executed[|executed| - 1]))
  }

  /** The body of the loop in start, for a message other than "closed". */
  method AnswerMessage(text: seq<Byte>, exec: Exec, commandDone: bool, answer: Result, executed: seq<seq<Byte>>)
    returns (reply: seq<Byte>, commandDone': bool, answer': Result, executed': seq<seq<Byte>>)
    requires Remembers(commandDone, answer, executed, exec)
    ensures reply == Render(AnswerAfter(executed, text, exec))
    ensures executed' == executed + (if text == CPRINT then [] else [text])
    ensures Remembers(commandDone', answer', executed', exec)
  {
    commandDone', answer', executed' := commandDone, answer, executed;
    if text == CPRINT {
      reply := AnswerPrint(commandDone, answer);
    } else {
      answer' := exec(|executed|, text);
      reply := AnswerCommand(answer');
      executed' := executed + [text];
      commandDone' := true;
    }
  }

  /** ShellServ::start.  replies[i] is what is sent in answer to the i-th message; executed are the commands run. */
  method Start(src: ByteSource, exec: Exec) returns (ret: int, replies: seq<seq<Byte>>, executed: seq<seq<Byte>>)
    modifies src
    ensures ret == -1
    ensures executed == Commands(Requests(old(src.pending)))
    ensures replies == Rendered(Answers(Requests(old(src.pending)), |Requests(old(src.pending))|, exec), Render)
  {
    var answer := Result([], 0);
    var commandDone := false;
    replies, executed := [], [];
    ghost var requests := Requests(src.pending);
    ghost var n := 0;
    while true
      invariant n <= |requests| && Requests(src.pending) == requests[n..]
      invariant executed == Commands(requests[..n])
      invariant replies == Rendered(Answers(requests, n, exec), Render)
      invariant Remembers(commandDone, answer, executed, exec)
      decreases |requests| - n
    {
      var closed, text := ReceiveRequest(src);
      if closed {
        assert requests[..n] == requests;
        return -1, replies, executed;
      }
      TakeRequest(requests, n, text, Requests(src.pending));
      CommandsStep(requests, n);
      var reply;
      reply, commandDone, answer, executed := AnswerMessage(text, exec, commandDone, answer, executed);
      AnswersStep(requests, n, exec, Render);
      replies := replies + [reply];
      n := n + 1;
    }
  }

  lemma {:induction false} AnswersStep(requests: seq<seq<Byte>>, n: nat, exec: Exec, render: Answer -> seq<Byte>)
    requires n < |requests|
    ensures Rendered(Answers(requests, n + 1, exec), render)
         == Rendered(Answers(requests, n, exec), render) + [render(AnswerTo(requests, n, exec))]
  {
    assert Answers(requests, n + 1, exec)[..n] == Answers(requests, n, exec);
  }

  lemma {:induction false} TakeRequest(requests: seq<seq<Byte>>, n: nat, text: seq<Byte>, rest: seq<seq<Byte>>)
    requires n <= |requests| && requests[n..] == [text] + rest
    ensures n < |requests| && requests[n] == text && requests[n + 1..] == rest
  {
    assert requests[n..][1..] == rest;
  }

  // ---------------------------------------------------------------- what a session does

  lemma {:induction false} UntilSpec(segments: seq<seq<Byte>>, word: seq<Byte>)
    ensures var r := Until(segments, word);
            && r <= segments && word !in r
            && (|r| < |segments| ==> segments[|r|] == word)
  {
    if segments != [] && segments[0] != word {
      UntilSpec(segments[1..], word);
    }
  }

  /** At every point the commands run are the requests so far without the CPRINTs. */
  lemma {:induction false} CommandsAreRequests(requests: seq<seq<Byte>>)
    ensures CPRINT !in Commands(requests)
    ensures multiset(Commands(requests)) == multiset(requests)[CPRINT := 0]
  {
    if requests != [] {
      var front, last := requests[..|requests| - 1], requests[|requests| - 1];
      CommandsAreRequests(front);
      assert requests == front + [last];
    }
  }

  /** The commands are run in the order of their requests: they are those of a first part, then those of the rest. */
  lemma {:induction false} CommandsInOrder(a: seq<seq<Byte>>, b: seq<seq<Byte>>)
    ensures Commands(a + b) == Commands(a) + Commands(b)
    ensures forall r: seq<Byte> :: Commands([r]) == if r == CPRINT then [] else [r]
    decreases |b|
  {
    forall r: seq<Byte> ensures Commands([r]) == if r == CPRINT then [] else [r] {
      assert [r][..0] == [];
    }
    if b == [] {
      assert a + b == a;
    } else {
      var n := |b| - 1;
      assert (a + b)[..|a + b| - 1] == a + b[..n] && (a + b)[|a + b| - 1] == b[n];
      CommandsInOrder(a, b[..n]);
    }
  }

  lemma {:induction false} NoCommandsBetween(requests: seq<seq<Byte>>, k: nat, i: nat)
    requires k <= i <= |requests|
    requires forall j :: k <= j < i ==> requests[j] == CPRINT
    ensures Commands(requests[..i]) == Commands(requests[..k])
    decreases i
  {
    if k < i {
      NoCommandsBetween(requests, k, i - 1);
      CommandsStep(requests, i - 1);
    }
  }

  /** A CPRINT is answered from the result that the latest command before it was answered with. */
  lemma {:induction false} PrintAfterCommand(requests: seq<seq<Byte>>, k: nat, i: nat, exec: Exec)
    requires k < i < |requests| && requests[i] == CPRINT && requests[k] != CPRINT
    requires forall j :: k < j < i ==> requests[j] == CPRINT
    ensures AnswerTo(requests, k, exec).ByCommand?
    ensures AnswerTo(requests, i, exec) == ByPrint(AnswerTo(requests, k, exec).r)
  {
    NoCommandsBetween(requests, k + 1, i);
    CommandsStep(requests, k);
  }

  /** Every request but CPRINT is answered by running it, and it is numbered by the commands before it. */
  lemma {:induction false} CommandAnswered(requests: seq<seq<Byte>>, i: nat, exec: Exec)
    requires i < |requests|
    ensures requests[i] != CPRINT ==>
              AnswerTo(requests, i, exec) == ByCommand(exec(i - multiset(requests[..i])[CPRINT], requests[i]))
    ensures requests[i] == CPRINT ==> !AnswerTo(requests, i, exec).ByCommand?
  {
    CommandCount(requests[..i]);
  }

  lemma {:induction false} CommandCount(requests: seq<seq<Byte>>)
    ensures |Commands(requests)| == |requests| - multiset(requests)[CPRINT]
  {
    if requests != [] {
      var front, last := requests[..|requests| - 1], requests[|requests| - 1];
      CommandCount(front);
      assert requests == front + [last];
    }
  }

  lemma {:induction false} NoCommands(requests: seq<seq<Byte>>)
    ensures Commands(requests) == [] <==> forall j :: 0 <= j < |requests| ==> requests[j] == CPRINT
  {
    if requests != [] {
      NoCommands(requests[..|requests| - 1]);
    }
  }

  /** The answer to CPRINT is the no-command error exactly when no command came before. */
  lemma {:induction false} PrintWithoutCommand(requests: seq<seq<Byte>>, i: nat, exec: Exec)
    requires i < |requests| && requests[i] == CPRINT
    ensures AnswerTo(requests, i, exec) == NoCommand <==> forall j :: 0 <= j < i ==> requests[j] == CPRINT
  {
    NoCommands(requests[..i]);
  }

  // ---------------------------------------------------------------- what the client reads, in ASCII codes

  const OK_WORD: seq<Byte> := [79, 75, 32]
  const ERR_WORD: seq<Byte> := [69, 82, 82, 32, 58, 32]
  const FAIL_WORD: seq<Byte> := [70, 65, 73, 76, 32]
  const COLON: seq<Byte> := [32, 58, 32]

  /** "OK 0 Command was successful" and its line end. */
  const OK_LINE: seq<Byte> := [79, 75, 32, 48] + OK_TAIL
  const OK_TAIL: seq<Byte> := [
    32, 67, 111, 109, 109, 97, 110, 100, 32, 119, 97, 115, 32, 115, 117, 99, 99, 101, 115, 115, 102, 117, 108, 10]

  /** " Preceding command failed : ". */
  const PRECEDING: seq<Byte> := [
    32, 80, 114, 101, 99, 101, 100, 105, 110, 103, 32, 99, 111, 109, 109, 97, 110, 100, 32, 102, 97, 105, 108, 101,
    100, 32, 58, 32]

  /** "ERR EIO No command issued", its line end and a NUL. */
  const ERROR_LINE: seq<Byte> := [
    69, 82, 82, 32, 69, 73, 79, 32, 78, 111, 32, 99, 111, 109, 109, 97, 110, 100, 32, 105, 115, 115, 117, 101, 100,
    10, 0]

  /** The number at the start of rest and the message behind phrase. */
  function ReadNumber(rest: seq<Byte>, phrase: seq<Byte>): Option<(int, seq<Byte>)> {
    var k := FindSpace(rest);
    if !(phrase <= rest[k..]) then None else Some((ParseInt(rest[..k]), rest[k + |phrase|..]))
  }

  /** The number and the message of a reply that starts with word, when phrase stands between them. */
  function ReadReply(reply: seq<Byte>, word: seq<Byte>, phrase: seq<Byte>): Option<(int, seq<Byte>)> {
    if word <= reply then ReadNumber(reply[|word|..], phrase) else None
  }

  lemma {:induction false} CStrAppend(p: seq<Byte>, m: seq<Byte>)
    requires NulFree(p)
    ensures CStr(p + m) == p + CStr(m)
  {
    CStrUnique(p + m, p + CStr(m));
  }

  lemma {:induction false} NumberBack(code: int, phrase: seq<Byte>, m: seq<Byte>)
    requires phrase != [] && phrase[0] == 32
    ensures ReadNumber(ToString(code) + phrase + m, phrase) == Some((code, m))
  {
    var number := ToString(code);
    var rest := number + phrase + m;
    assert phrase == [SPACE] + phrase[1..];
    assert rest == number + [SPACE] + (phrase[1..] + m);
    FindSpaceAt(number, phrase[1..] + m);
    assert rest[|number|..] == phrase + m && rest[..|number|] == number && rest[|number| + |phrase|..] == m;
    ParseToString(code);
  }

  lemma {:induction false} ReadBack(word: seq<Byte>, code: int, phrase: seq<Byte>, message: seq<Byte>)
    requires phrase != [] && phrase[0] == 32 && NulFree(phrase) && NulFree(word)
    ensures ReadReply(CStr(word + ToString(code) + phrase + message), word, phrase) == Some((code, CStr(message)))
  {
    var number, m := ToString(code), CStr(message);
    CStrAppend(word + number + phrase, message);
    assert (word + number + phrase + m)[|word|..] == number + phrase + m;
    NumberBack(code, phrase, m);
  }

  /** The two requests that are not commands: "closed" and "CPRINT". */
  lemma ControlWords()
    ensures CLOSED == [99, 108, 111, 115, 101, 100] && CPRINT == [67, 80, 82, 73, 78, 84]
  {
  }

  lemma ShortPhrases()
    ensures Bytes("OK ") == OK_WORD && Bytes("ERR : ") == ERR_WORD && Bytes("FAIL ") == FAIL_WORD
    ensures Bytes(" : ") == COLON
  {
  }

  lemma PrecedingPhrase()
    ensures Bytes(" Preceding command failed : ") == PRECEDING
  {
  }

  lemma ErrorPhrase()
    ensures NO_COMMAND == ERROR_LINE
  {
  }

  lemma OkLine()
    ensures Bytes("OK 0 Command was successful\n") == OK_LINE
  {
  }

  lemma OkParts()
    ensures OK_WORD + ToString(0) + SUCCESSFUL == OK_LINE
  {
    assert SUCCESSFUL == OK_TAIL;
    assert OK_WORD + ToString(0) == [79, 75, 32, 48];
  }

  /**
   The reply to a command starts with OK, ERR or FAIL according to its status, 0, -1 or any other.  With OK it is
   the success line; with ERR the message follows, as a C string; with FAIL the status and the message follow.
   */
  lemma {:induction false} CommandReplyReads(r: Result)
    ensures OK_WORD <= CommandReply(r) <==> r.exitstatus == 0
    ensures ERR_WORD <= CommandReply(r) <==> r.exitstatus == -1
    ensures FAIL_WORD <= CommandReply(r) <==> r.exitstatus != 0 && r.exitstatus != -1
    ensures r.exitstatus == 0 ==> CommandReply(r) == OK_LINE
    ensures r.exitstatus == -1 ==> CommandReply(r)[|ERR_WORD|..] == CStr(r.message)
    ensures r.exitstatus != 0 && r.exitstatus != -1 ==>
              ReadReply(CommandReply(r), FAIL_WORD, COLON) == Some((r.exitstatus, CStr(r.message)))
  {
    ShortPhrases();
    if r.exitstatus == 0 {
      OkParts();
      CStrUnique(OK_LINE, OK_LINE);
    } else if r.exitstatus == -1 {
      CStrAppend(ERR_WORD, r.message);
    } else {
      ReadBack(FAIL_WORD, r.exitstatus, COLON, r.message);
      assert FAIL_WORD[0] == 70;
    }
  }

  /**
   The reply to CPRINT after a command: with status 0 the command's output as a C string and the success line,
   with any other status FAIL, the status and the output.
   */
  lemma {:induction false} PrintReplyReads(r: Result)
    ensures r.exitstatus == 0 ==> PrintReply(r) == CStr(r.message) + OK_LINE
    ensures r.exitstatus != 0 ==>
              ReadReply(PrintReply(r), FAIL_WORD, PRECEDING) == Some((r.exitstatus, CStr(r.message)))
  {
    ShortPhrases();
    PrecedingPhrase();
    if r.exitstatus == 0 {
      OkLine();
      CStrUnique(OK_LINE, OK_LINE);
    } else {
      ReadBack(FAIL_WORD, r.exitstatus, PRECEDING, r.message);
    }
  }

  /** The no-command error is sent with its NUL, so no other answer looks like it. */
  lemma ErrorIsRecognisable(a: Answer)
    ensures Render(NoCommand) == ERROR_LINE
    ensures Render(a) == ERROR_LINE <==> a == NoCommand
  {
    ErrorPhrase();
    assert NO_COMMAND[|NO_COMMAND| - 1] == NUL;
    assert a != NoCommand ==> NulFree(Render(a));
  }

  // ---------------------------------------------------------------- from lines to segments

  predicate LineText(t: seq<Byte>) {
    10 !in t && 13 !in t
  }

  function Events(t: seq<Byte>): (e: seq<Event>)
    ensures |e| == |t| && forall i :: 0 <= i < |t| ==> e[i] == Data(t[i])
  {
    seq(|t|, i requires 0 <= i < |t| => Data(t[i]))
  }

  /** The stream of a client that sends lines, each ended by LF, CR or a failed call, and then stops inside a line. */
  function Sent(lines: seq<(seq<Byte>, Event)>, last: seq<Byte>): seq<Event> {
    if lines == [] then Events(last) else Events(lines[0].0) + [lines[0].1] + Sent(lines[1..], last)
  }

  function Texts(lines: seq<(seq<Byte>, Event)>): seq<seq<Byte>> {
    if lines == [] then [] else [CStr(lines[0].0)] + Texts(lines[1..])
  }

  /** The segments are exactly the lines sent: nothing is lost, split or merged, and an unfinished line is dropped. */
  lemma {:induction false} SegmentsAreLines(lines: seq<(seq<Byte>, Event)>, last: seq<Byte>)
    requires LineText(last)
    requires forall i :: 0 <= i < |lines| ==> LineText(lines[i].0) && (lines[i].1.Error? || IsLineEnd(lines[i].1))
    ensures Segments(Sent(lines, last)) == Texts(lines)
  {
    var pending := Sent(lines, last);
    if lines == [] {
      ScanUnique(pending, |pending|, |last|);
    } else {
      var t := lines[0].0;
      ScanUnique(pending, |pending|, |t|);
      assert Head(pending) == t;
      assert Tail(pending) == Sent(lines[1..], last);
      SegmentsAreLines(lines[1..], last);
    }
  }
}

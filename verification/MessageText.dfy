/** The text form of a message, as Message::toCString and Message::getMessageSize of Server.cpp lay it out. */
module MessageText {

  import opened Options
  import opened Messages

  const SPACE: Byte := 32
  const MINUS: Byte := 45
  const ZERO: Byte := 48

  /** Visible ASCII characters only. */
  predicate Plain(s: string) {
    forall i :: 0 <= i < |s| ==> ' ' < s[i] < 128 as char
  }

  function StatusString(s: Status): (name: string)
    ensures Plain(name)
  {
    match s
    case OK => "OK"
    case ERR => "ERR"
    case FAIL => "FAIL"
    case SYNC_FAIL => "SYNC_FAIL"
    case SYNC_READ => "SYNC_READ"
    case SYNC_WRITE => "SYNC_WRITE"
    case SYNC_SEEK => "SYNC_SEEK"
    case SYNC_CLOSE => "SYNC_CLOSE"
    case SYNC_OPEN => "SYNC_OPEN"
  }

  function StatusName(s: Status): (name: seq<Byte>)
    ensures forall i :: 0 <= i < |name| ==> name[i] > SPACE
  {
    Bytes(StatusString(s))
  }

  function Decimal(n: nat): (d: seq<Byte>)
    ensures d != [] && forall i :: 0 <= i < |d| ==> ZERO <= d[i] < ZERO + 10
  {
    if n < 10 then [ZERO + n] else Decimal(n / 10) + [ZERO + n % 10]
  }

  /** std::to_string of an int. */
  function ToString(code: int): (t: seq<Byte>)
    ensures t != [] && forall i :: 0 <= i < |t| ==> t[i] == MINUS || ZERO <= t[i] < ZERO + 10
  {
    if code < 0 then [MINUS] + Decimal(-code) else Decimal(code)
  }

  /** "status code data". */
  function Text(d: MessageData): seq<Byte> {
    StatusName(d.status) + [SPACE] + ToString(d.code) + [SPACE] + d.data
  }

  /** getMessageSize: all parts, the two spaces and the terminating NUL; 0 for a message without data. */
  method GetMessageSize(m: Message) returns (size: nat)
    ensures m.data.None? ==> size == 0
    ensures m.data.Some? ==> size - 1 == |Text(m.data.value)|
  {
    if m.data.None? {
      return 0;
    }
    size := 0;
    size := size + |StatusName(m.data.value.status)|;
    size := size + 1;
    size := size + |ToString(m.data.value.code)|;
    size := size + 1;
    size := size + |m.data.value.data|;
    size := size + 1;
  }

  /** What strcpy puts into the buffer.  The code drops the second and third part; complete is the intended form. */
  function CString(d: MessageData, complete: bool): seq<Byte> {
    CStr(if complete then Text(d) else StatusName(d.status)) + [NUL]
  }

  // ---------------------------------------------------------------- reading it back, from the ASCII codes alone

  function FindSpace(s: seq<Byte>): (k: nat)
    ensures k <= |s|
  {
    if s == [] || s[0] == 32 then 0 else 1 + FindSpace(s[1..])
  }

  function ParseNat(s: seq<Byte>): int {
    if s == [] then 0 else ParseNat(s[..|s| - 1]) * 10 + s[|s| - 1] - 48
  }

  function ParseInt(s: seq<Byte>): int {
    if s != [] && s[0] == 45 then -ParseNat(s[1..]) else ParseNat(s)
  }

  /** Decimal digits without a leading zero. */
  predicate IsNumeral(s: seq<Byte>) {
    s != [] && (|s| > 1 ==> s[0] != 48) && forall i :: 0 <= i < |s| ==> 48 <= s[i] <= 57
  }

  function ParseStatus(s: seq<Byte>): Option<Status> {
    if s == [79, 75] then Some(OK)
    else if s == [69, 82, 82] then Some(ERR)
    else if s == [70, 65, 73, 76] then Some(FAIL)
    else if s == [83, 89, 78, 67, 95, 70, 65, 73, 76] then Some(SYNC_FAIL)
    else if s == [83, 89, 78, 67, 95, 82, 69, 65, 68] then Some(SYNC_READ)
    else if s == [83, 89, 78, 67, 95, 87, 82, 73, 84, 69] then Some(SYNC_WRITE)
    else if s == [83, 89, 78, 67, 95, 83, 69, 69, 75] then Some(SYNC_SEEK)
    else if s == [83, 89, 78, 67, 95, 67, 76, 79, 83, 69] then Some(SYNC_CLOSE)
    else if s == [83, 89, 78, 67, 95, 79, 80, 69, 78] then Some(SYNC_OPEN)
    else None
  }

  /** A reader of the text form: split at the first two spaces. */
  function Decode(text: seq<Byte>): Option<MessageData> {
    var i := FindSpace(text);
    if i == |text| then None
    else
      var rest := text[i + 1..];
      var j := FindSpace(rest);
      var status := ParseStatus(text[..i]);
      if j == |rest| || status.None? then None
      else Some(MessageData(status.value, ParseInt(rest[..j]), rest[j + 1..]))
  }

  // ---------------------------------------------------------------- unique decoding

  lemma {:induction false} FindSpaceAt(a: seq<Byte>, b: seq<Byte>)
    requires SPACE !in a
    ensures FindSpace(a + [SPACE] + b) == |a|
  {
    if a == [] {
      assert (a + [SPACE] + b)[0] == SPACE;
    } else {
      assert (a + [SPACE] + b)[1..] == a[1..] + [SPACE] + b;
      FindSpaceAt(a[1..], b);
    }
  }

  lemma {:induction false} ParseDecimal(n: nat)
    ensures ParseNat(Decimal(n)) == n
  {
    if n >= 10 {
      ParseDecimal(n / 10);
      assert Decimal(n)[..|Decimal(n)| - 1] == Decimal(n / 10);
    } else {
      assert [ZERO + n][..0] == [];
    }
  }

  lemma ParseToString(code: int)
    ensures ParseInt(ToString(code)) == code
  {
    if code < 0 {
      ParseDecimal(-code);
      assert ToString(code)[1..] == Decimal(-code);
    } else {
      ParseDecimal(code);
    }
  }

  /** ToString gives the numeral of the code, with a minus exactly if it is negative, and no other text does. */
  lemma ToStringUnique(code: int, t: seq<Byte>)
    ensures t == ToString(code) <==>
            if code < 0 then t != [] && t[0] == 45 && IsNumeral(t[1..]) && ParseNat(t[1..]) == -code
            else IsNumeral(t) && ParseNat(t) == code
  {
    if code < 0 {
      assert ToString(code)[1..] == Decimal(-code);
      DecimalUnique(-code, Decimal(-code));
      if t != [] {
        DecimalUnique(-code, t[1..]);
        assert t == [t[0]] + t[1..];
      }
    } else {
      DecimalUnique(code, t);
    }
  }

  lemma {:induction false} DecimalUnique(n: nat, t: seq<Byte>)
    ensures t == Decimal(n) <==> IsNumeral(t) && ParseNat(t) == n
    decreases n, |t|
  {
    DecimalIsNumeral(n);
    if IsNumeral(t) && ParseNat(t) == n {
      var front, last := t[..|t| - 1], t[|t| - 1];
      assert t == front + [last];
      if front != [] {
        NumeralPositive(front);
        DecimalUnique(n / 10, front);
      }
    }
  }

  lemma {:induction false} DecimalIsNumeral(n: nat)
    ensures IsNumeral(Decimal(n)) && ParseNat(Decimal(n)) == n
  {
    ParseDecimal(n);
    if n >= 10 {
      DecimalIsNumeral(n / 10);
      ParseDecimal(n / 10);
      assert Decimal(n)[0] == Decimal(n / 10)[0];
    }
  }

  lemma {:induction false} NumeralPositive(t: seq<Byte>)
    requires t != [] && t[0] != 48 && forall i :: 0 <= i < |t| ==> 48 <= t[i] <= 57
    ensures ParseNat(t) > 0
  {
    if |t| > 1 {
      NumeralPositive(t[..|t| - 1]);
    } else {
      assert t[..0] == [];
    }
  }

  lemma {:induction false} ParseStatusName(s: Status)
    ensures ParseStatus(StatusName(s)) == Some(s)
  {
    match s
    case OK => assert StatusName(s) == [79, 75];
    case ERR => assert StatusName(s) == [69, 82, 82];
    case FAIL => assert StatusName(s) == [70, 65, 73, 76];
    case _ => ParseSyncName(s);
  }

  lemma {:induction false} ParseSyncName(s: Status)
    requires s != OK && s != ERR && s != FAIL
    ensures ParseStatus(StatusName(s)) == Some(s)
  {
    match s
    case SYNC_FAIL => assert StatusName(s) == [83, 89, 78, 67, 95, 70, 65, 73, 76];
    case SYNC_READ => assert StatusName(s) == [83, 89, 78, 67, 95, 82, 69, 65, 68];
    case SYNC_WRITE => assert StatusName(s) == [83, 89, 78, 67, 95, 87, 82, 73, 84, 69];
    case SYNC_SEEK => assert StatusName(s) == [83, 89, 78, 67, 95, 83, 69, 69, 75];
    case SYNC_CLOSE => assert StatusName(s) == [83, 89, 78, 67, 95, 67, 76, 79, 83, 69];
    case SYNC_OPEN => assert StatusName(s) == [83, 89, 78, 67, 95, 79, 80, 69, 78];
  }

  /** Every message is read back from its text, whatever its status, its code and its data. */
  lemma DecodeText(d: MessageData)
    ensures Decode(Text(d)) == Some(d)
  {
    var name, code := StatusName(d.status), ToString(d.code);
    var rest := code + [SPACE] + d.data;
    assert Text(d) == name + [SPACE] + rest;
    FindSpaceAt(name, rest);
    assert Text(d)[..|name|] == name && Text(d)[|name| + 1..] == rest;
    FindSpaceAt(code, d.data);
    assert rest[..|code|] == code && rest[|code| + 1..] == d.data;
    ParseStatusName(d.status);
    ParseToString(d.code);
  }

  /** The text determines the message. */
  lemma TextInjective(d: MessageData, e: MessageData)
    ensures Text(d) == Text(e) <==> d == e
  {
    DecodeText(d);
    DecodeText(e);
  }

  /** As intended, the whole text reaches the peer exactly if the data has no NUL in it. */
  lemma CompleteCString(d: MessageData)
    ensures CStr(CString(d, true)) == Text(d) <==> NulFree(d.data)
    ensures NulFree(d.data) ==> CString(d, true) == Text(d) + [NUL]
  {
    if NulFree(d.data) {
      CStrUnique(Text(d), Text(d));
      CStrUnique(Text(d) + [NUL], Text(d));
    } else {
      var i :| 0 <= i < |d.data| && d.data[i] == NUL;
      assert Text(d)[|Text(d)| - |d.data| + i] == NUL;
    }
  }

  lemma NameCString(s: Status)
    ensures CStr(StatusName(s)) == StatusName(s)
  {
    CStrUnique(StatusName(s), StatusName(s));
  }

  lemma AppendInjective(a: seq<Byte>, b: seq<Byte>)
    ensures a + [NUL] == b + [NUL] <==> a == b
  {
    assert (a + [NUL])[..|a + [NUL]| - 1] == a && (b + [NUL])[..|b + [NUL]| - 1] == b;
  }

  /** As written, only the status reaches the peer: two messages look the same exactly if their status is the same. */
  lemma TruncatedCString(d: MessageData, e: MessageData)
    ensures CString(d, false) == CString(e, false) <==> d.status == e.status
    ensures ParseStatus(CStr(CString(d, false))) == Some(d.status)
  {
    NameCString(d.status);
    NameCString(e.status);
    AppendInjective(StatusName(d.status), StatusName(e.status));
    CStrUnique(CString(d, false), StatusName(d.status));
    ParseStatusName(d.status);
    ParseStatusName(e.status);
  }

  // ---------------------------------------------------------------- SYNC_WRITE

  /** writeSyncClient: the code is the length of the name, the data is the name followed by the C string stuff. */
  function WriteFrame(fileName: seq<Byte>, stuff: seq<Byte>): MessageData {
    MessageData(SYNC_WRITE, |fileName|, fileName + CStr(stuff))
  }

  /** What a SYNC_WRITE says: the file name and the payload. */
  function Unframe(d: Option<MessageData>): Option<(seq<Byte>, seq<Byte>)> {
    if d.None? || d.value.status != SYNC_WRITE || !(0 <= d.value.code <= |d.value.data|) then None
    else Some((d.value.data[..d.value.code], d.value.data[d.value.code..]))
  }

  lemma UnframeData(fileName: seq<Byte>, stuff: seq<Byte>)
    ensures Unframe(Some(WriteFrame(fileName, stuff))) == Some((fileName, CStr(stuff)))
  {
    assert (fileName + CStr(stuff))[..|fileName|] == fileName;
    assert (fileName + CStr(stuff))[|fileName|..] == CStr(stuff);
  }

  /** A write request determines file name and payload; the payload is all of stuff exactly if that is NUL-free. */
  lemma UnframeWrite(fileName: seq<Byte>, stuff: seq<Byte>)
    requires NulFree(fileName)
    ensures Unframe(Decode(CStr(CString(WriteFrame(fileName, stuff), true)))) == Some((fileName, CStr(stuff)))
    ensures CStr(stuff) == stuff <==> NulFree(stuff)
  {
    var d := WriteFrame(fileName, stuff);
    CompleteCString(d);
    DecodeText(d);
    UnframeData(fileName, stuff);
    if NulFree(stuff) {
      CStrUnique(stuff, stuff);
    }
  }
}

/** An HTTP response as `operator<<` prints it, and as the client reads it off a connection
    (src/Networking/Http/HttpResponse.cpp, src/Networking/Http/HttpClientMT.cpp). */
module HttpMessage {
  import opened Options
  import opened Texts

  type Headers = map<string, string>

  datatype Response = Response(version: string, status: nat, message: string, headers: Headers, content: string)

  const STATUS_LIMIT: nat := 0x1_0000_0000
  const SIZE_LIMIT: nat := 0x1_0000_0000_0000_0000
  const CRLF: string := "\r\n"
  const BLANK_LINE: string := "\r\n\r\n"
  const CONTENT_LENGTH: string := "Content-Length"

  // Printing

  function StatusLine(r: Response): string {
    r.version + " " + PrintNat(r.status) + " " + r.message + CRLF
  }

  function HeaderLine(name: string, value: string): string { name + ": " + value + CRLF }

  /** The header lines in the order in which the table is visited, and the blank line. */
  function HeaderBlock(headers: Headers, order: seq<string>): string
    requires forall i :: 0 <= i < |order| ==> order[i] in headers
  {
    if order == [] then CRLF else HeaderLine(order[0], headers[order[0]]) + HeaderBlock(headers, order[1..])
  }

  /** The order visits every header once. */
  predicate Visits(order: seq<string>, headers: Headers) {
    && (forall i :: 0 <= i < |order| ==> order[i] in headers)
    && (forall i, k :: 0 <= i < k < |order| ==> order[i] != order[k])
    && (forall name :: name in headers ==> name in order)
  }

  function Print(r: Response, order: seq<string>): string
    requires Visits(order, r.headers)
  {
    StatusLine(r) + HeaderBlock(r.headers, order) + r.content
  }

  // Reading numbers

  datatype Number = NoNumber | Number(value: nat, pos: nat)

  /** `ist >> n` for an unsigned type with values below `limit`: a minus sign wraps around, a
      value that does not fit fails. */
  function ReadUnsigned(s: string, i: nat, limit: nat): (r: Number)
    requires i <= |s| && limit > 0
    ensures r.Number? ==> i < r.pos <= |s| && r.value < limit
  {
    var a := SkipSpace(s, i);
    var signed := a < |s| && (s[a] == '-' || s[a] == '+');
    var b := if signed then a + 1 else a;
    var e := DigitsEnd(s, b);
    var n := DigitsValue(s, b, e);
    if e == b || n >= limit then NoNumber
    else Number(if signed && s[a] == '-' then (limit - n) % limit else n, e)
  }

  // Reading the status line

  function TokenEnd(s: string, i: nat): (r: nat)
    requires i <= |s|
    ensures i <= r <= |s|
    decreases |s| - i
  {
    if i < |s| && !IsSpace(s[i]) then TokenEnd(s, i + 1) else i
  }

  /** Where `std::getline(ist, line, '\r')` stops: at the next carriage return or at the end. */
  function LineEnd(s: string, i: nat): (r: nat)
    requires i <= |s|
    ensures i <= r <= |s|
    ensures r < |s| ==> s[r] == '\r'
    decreases |s| - i
  {
    if i < |s| && s[i] != '\r' then LineEnd(s, i + 1) else i
  }

  predicate IsValidHttpVersion(v: string) { v == "HTTP/1.1" || v == "HTTP/1.0" }

  /** What was read from the front of a buffer and how many characters that took. */
  datatype Parsed<+T> = Bad | Good(value: T, pos: nat)

  /** `HandleReadStatusLine`. */
  function ReadStatus(s: string): (r: Parsed<Response>)
    ensures r.Good? ==> r.pos <= |s|
  {
    var a := SkipSpace(s, 0);
    var b := TokenEnd(s, a);
    if !IsValidHttpVersion(s[a..b]) then Bad else
    var code := ReadUnsigned(s, b, STATUS_LIMIT);
    if code.NoNumber? || code.pos == |s| then Bad else
    var e := LineEnd(s, code.pos + 1);
    if e + 1 < |s| && s[e + 1] == '\n' then
      Good(Response(s[a..b], code.value, s[code.pos + 1..e], map[], ""), e + 2)
    else Bad
  }

  // Reading the headers

  function FindColon(s: string, i: nat): (r: nat)
    requires i <= |s|
    ensures i <= r <= |s|
    decreases |s| - i
  {
    if i < |s| && s[i] != ':' then FindColon(s, i + 1) else i
  }

  /** `find_first_not_of(' ', i)`; the length when there is none. */
  function SkipBlanks(s: string, i: nat): (r: nat)
    requires i <= |s|
    ensures i <= r <= |s|
    decreases |s| - i
  {
    if i < |s| && s[i] == ' ' then SkipBlanks(s, i + 1) else i
  }

  /** The value of a header line: from the first character that is not a blank, provided that it is
      not the last one of the line. */
  function HeaderValue(line: string, from: nat): string
    requires from <= |line|
  {
    var pos := SkipBlanks(line, from);
    if pos + 1 < |line| then line[pos..] else ""
  }

  function AddHeader(headers: Headers, line: string): Headers {
    var c := FindColon(line, 0);
    if c < |line| then headers[line[..c] := HeaderValue(line, c + 1)] else headers
  }

  /** The loop of `HandleReadHeaders`. */
  function ReadHeaders(s: string, i: nat, headers: Headers): (r: Parsed<Headers>)
    requires i <= |s|
    ensures r.Good? ==> i <= r.pos <= |s|
    decreases |s| - i
  {
    var e := LineEnd(s, i);
    if e + 1 >= |s| || s[e + 1] != '\n' then Bad
    else if e == i then Good(headers, e + 2)
    else ReadHeaders(s, e + 2, AddHeader(headers, s[i..e]))
  }

  lemma OneHeaderOn(s: string, i: nat, headers: Headers)
    requires i <= |s|
    ensures var e := LineEnd(s, i);
      ReadHeaders(s, i, headers)
        == if e + 1 >= |s| || s[e + 1] != '\n' then Bad
           else if e == i then Good(headers, e + 2)
           else ReadHeaders(s, e + 2, AddHeader(headers, s[i..e]))
  {
  }

  /** `GetContentLength`; None is InvalidContentLength. */
  function ContentLength(headers: Headers): Option<nat> {
    if CONTENT_LENGTH !in headers then None
    else
      var n := ReadUnsigned(headers[CONTENT_LENGTH], 0, SIZE_LIMIT);
      if n.NoNumber? || n.value == SIZE_LIMIT - 1 then None else Some(n.value)
  }

  // The incremental reader

  datatype Phase =
    | AwaitStatus
    | AwaitHeaders(head: Response)
    | AwaitLength(head: Response, length: nat)
    | AwaitEnd(head: Response)
    | Done(response: Response)
    | Broken

  /** The read buffer and what the client is waiting for. */
  datatype Reader = Reader(phase: Phase, buffer: string)

  const FRESH := Reader(AwaitStatus, "")

  /** The body decision at the end of `HandleReadHeaders`, with the rest of the buffer. */
  function StartBody(head: Response, rest: string): Reader {
    var n := ContentLength(head.headers);
    if n.None? then Reader(AwaitEnd(head), rest)
    else if n.value == |rest| then Reader(Done(head.(content := rest)), "")
    else if n.value < |rest| then Reader(Broken, "")
    else Reader(AwaitLength(head, n.value), rest)
  }

  function AfterStatus(head: Response, buffer: string): Reader {
    if !Contains(buffer, BLANK_LINE) then Reader(AwaitHeaders(head), buffer)
    else
      var h := ReadHeaders(buffer, 0, map[]);
      if h.Bad? then Reader(Broken, "") else StartBody(head.(headers := h.value), buffer[h.pos..])
  }

  function FromStart(buffer: string): Reader {
    if !Contains(buffer, CRLF) then Reader(AwaitStatus, buffer)
    else
      var st := ReadStatus(buffer);
      if st.Bad? then Reader(Broken, "") else AfterStatus(st.value, buffer[st.pos..])
  }

  /** The reader after the connection has delivered a chunk. A body of known length takes no more
      than it needs; what is left stays on the connection, as does what follows a response. */
  function Feed(r: Reader, chunk: string): Reader {
    match r.phase
    case AwaitStatus => FromStart(r.buffer + chunk)
    case AwaitHeaders(head) => AfterStatus(head, r.buffer + chunk)
    case AwaitLength(head, n) =>
      if |r.buffer| + |chunk| < n then Reader(AwaitLength(head, n), r.buffer + chunk)
      else if |r.buffer| <= n then
        Reader(Done(head.(content := r.buffer + chunk[..n - |r.buffer|])), "")
      else r
    case AwaitEnd(head) => Reader(AwaitEnd(head), r.buffer + chunk)
    case Done(_) => r
    case Broken => r
  }

  function FeedAll(r: Reader, chunks: seq<string>): Reader
    decreases |chunks|
  {
    if chunks == [] then r else FeedAll(Feed(r, chunks[0]), chunks[1..])
  }

  /** The reader after the peer has closed the connection. */
  function Close(r: Reader): Reader {
    match r.phase
    case AwaitEnd(head) => Reader(Done(head.(content := r.buffer)), "")
    case Done(_) => r
    case _ => Reader(Broken, "")
  }

  // Which responses can be read back

  predicate NoReturn(s: string) { forall i :: 0 <= i < |s| ==> s[i] != '\r' }

  predicate NoColon(s: string) { forall i :: 0 <= i < |s| ==> s[i] != ':' }

  /** What a response must not contain for its lines to be told apart. */
  predicate Separable(r: Response) {
    && IsValidHttpVersion(r.version) && r.status < STATUS_LIMIT && NoReturn(r.message)
    && (forall name :: name in r.headers ==>
         NoReturn(name) && NoColon(name) && NoReturn(r.headers[name]))
  }

  /** What becomes of a header value. */
  function ReadBack(value: string): string { HeaderValue(": " + value, 1) }

  function ReadBackAll(headers: Headers): Headers { map name | name in headers :: ReadBack(headers[name]) }

  /** Blanks in front of a value are lost, and so is a last character with nothing but blanks
      before it. A value survives exactly when it is empty, or starts with no blank and has at
      least two characters. */
  predicate Survives(value: string) { value == "" || (|value| >= 2 && value[0] != ' ') }

  lemma {:induction false} SkipBlanksShift(a: string, b: string, i: nat)
    requires i <= |b|
    ensures SkipBlanks(a + b, |a| + i) == |a| + SkipBlanks(b, i)
    decreases |b| - i
  {
    if i < |b| && b[i] == ' ' {
      SkipBlanksShift(a, b, i + 1);
    }
  }

  lemma ReadBackExactly(value: string)
    ensures ReadBack(value) == value <==> Survives(value)
  {
    var line := ": " + value;
    assert line == ": " + value && |line| == 2 + |value|;
    SkipBlanksShift(": ", value, 0);
    assert SkipBlanks(line, 1) == SkipBlanks(line, 2) == 2 + SkipBlanks(value, 0);
    if value != "" && value[0] != ' ' {
      assert line[2..] == value;
    }
  }

  /** All headers survive exactly when each value does. */
  lemma ReadBackAllExactly(headers: Headers)
    ensures ReadBackAll(headers) == headers <==> forall name :: name in headers ==> Survives(headers[name])
  {
    forall name | name in headers ensures ReadBack(headers[name]) == headers[name] <==> Survives(headers[name]) {
      ReadBackExactly(headers[name]);
    }
    if ReadBackAll(headers) == headers {
      forall name | name in headers ensures Survives(headers[name]) {
        assert ReadBackAll(headers)[name] == headers[name];
      }
    }
  }

  lemma AllDigitsEnd(s: string, i: nat)
    requires i <= |s| && forall k :: i <= k < |s| ==> IsDigit(s[k])
    ensures DigitsEnd(s, i) == |s|
    decreases |s| - i
  {
  }

  lemma PrintedNumberIsRead(n: nat, limit: nat)
    requires n < limit
    ensures ReadUnsigned(PrintNat(n), 0, limit) == Number(n, |PrintNat(n)|)
  {
    var s := PrintNat(n);
    assert s[0..|s|] == s;
    PrintNatRead(s, 0, n);
    assert IsDigit(s[0]);
    assert SkipSpace(s, 0) == 0;
    AllDigitsEnd(s, 0);
  }

  /** A value of one character is lost, and a Content-Length with it: the body is then read until
      the peer closes the connection. */
  lemma OneCharacterLengthIsLost(headers: Headers)
    requires CONTENT_LENGTH in headers && |headers[CONTENT_LENGTH]| == 1
    ensures ContentLength(ReadBackAll(headers)) == None
  {
    var value := headers[CONTENT_LENGTH];
    SkipBlanksShift(": ", value, 0);
    assert ReadBack(value) == "";
  }

  /** A printed length is read back exactly when it has at least two digits and is not the largest
      number, which stands for no length. */
  lemma PrintedLengthSurvivesExactly(headers: Headers, n: nat)
    requires CONTENT_LENGTH in headers && headers[CONTENT_LENGTH] == PrintNat(n)
    ensures ContentLength(ReadBackAll(headers)) == if 10 <= n < 0xFFFF_FFFF_FFFF_FFFF then Some(n) else None
  {
    var value := PrintNat(n);
    if n >= 10 {
      assert |value| >= 2;
      assert value[0..|value|] == value;
      PrintNatRead(value, 0, n);
      assert IsDigit(value[0]);
      ReadBackExactly(value);
      assert "" + value == value;
      SignedNumberIsRead("", value, SIZE_LIMIT);
    } else {
      OneCharacterLengthIsLost(headers);
    }
  }

  /** A number with a sign: one that does not fit fails, and a minus sign wraps around. */
  lemma SignedNumberIsRead(sign: string, digits: string, limit: nat)
    requires sign == "" || sign == "+" || sign == "-"
    requires digits != "" && (forall k :: 0 <= k < |digits| ==> IsDigit(digits[k])) && limit > 0
    ensures var n := DigitsValue(digits, 0, |digits|);
      ReadUnsigned(sign + digits, 0, limit)
        == if n >= limit then NoNumber
           else Number(if sign == "-" && n > 0 then limit - n else n, |sign + digits|)
  {
    hide *;
    var s := sign + digits;
    SameDigits(sign, digits, |digits|);
    FirstIsDigit(digits);
    SignIsNoSpace(s, sign, digits);
    AllDigitsEnd(s, |sign|);
    UnsignedFromParts(s, sign, DigitsValue(digits, 0, |digits|), limit);
  }

  lemma FirstIsDigit(digits: string)
    requires digits != "" && (forall k :: 0 <= k < |digits| ==> IsDigit(digits[k]))
    ensures IsDigit(digits[0])
  {
  }

  lemma UnsignedFromParts(s: string, sign: string, n: nat, limit: nat)
    requires |sign| < |s| && limit > 0 && SkipSpace(s, 0) == 0
    requires (s[0] == '-' <==> sign == "-") && (s[0] == '-' || s[0] == '+' <==> sign != "") && |sign| <= 1
    requires DigitsEnd(s, |sign|) == |s| && (forall k :: |sign| <= k < |s| ==> IsDigit(s[k]))
    requires DigitsValue(s, |sign|, |s|) == n
    ensures ReadUnsigned(s, 0, limit)
         == if n >= limit then NoNumber else Number(if sign == "-" && n > 0 then limit - n else n, |s|)
  {
    hide DigitsValue, DigitsEnd, IsDigit, SkipSpace;
  }

  lemma SignIsNoSpace(s: string, sign: string, digits: string)
    requires (sign == "" || sign == "+" || sign == "-") && digits != "" && IsDigit(digits[0]) && s == sign + digits
    ensures SkipSpace(s, 0) == 0
    ensures s[0] == '-' <==> sign == "-"
    ensures s[0] == '-' || s[0] == '+' <==> sign != ""
  {
    assert s[|sign|] == digits[0];
    assert SkipSpace(s, 0) == 0;
  }

  lemma {:induction false} SameDigits(sign: string, digits: string, k: nat)
    requires k <= |digits| && forall j :: 0 <= j < |digits| ==> IsDigit(digits[j])
    ensures forall j :: |sign| <= j < |sign| + k ==> IsDigit((sign + digits)[j])
    ensures DigitsValue(sign + digits, |sign|, |sign| + k) == DigitsValue(digits, 0, k)
  {
    if k > 0 {
      SameDigits(sign, digits, k - 1);
    }
  }

  // The status line is read back

  lemma {:induction false} TokenEndAt(s: string, i: nat, j: nat)
    requires i <= j < |s| && IsSpace(s[j]) && forall k :: i <= k < j ==> !IsSpace(s[k])
    ensures TokenEnd(s, i) == j
    decreases j - i
  {
    if i < j {
      TokenEndAt(s, i + 1, j);
    }
  }

  lemma {:induction false} LineEndAt(s: string, i: nat, j: nat)
    requires i <= j < |s| && s[j] == '\r' && forall k :: i <= k < j ==> s[k] != '\r'
    ensures LineEnd(s, i) == j
    decreases j - i
  {
    if i < j {
      LineEndAt(s, i + 1, j);
    }
  }

  lemma UnsignedRead(s: string, i: nat, n: nat, limit: nat)
    requires i < |s| && s[i] == ' ' && At(s, i + 1, PrintNat(n)) && n < limit
    requires i + 1 + |PrintNat(n)| < |s| && !IsDigit(s[i + 1 + |PrintNat(n)|])
    ensures ReadUnsigned(s, i, limit) == Number(n, i + 1 + |PrintNat(n)|)
  {
    PrintNatRead(s, i + 1, n);
    assert IsDigit(s[i + 1]);
    assert SkipSpace(s, i + 1) == i + 1;
    DigitsEndAt(s, i + 1, i + 1 + |PrintNat(n)|);
  }

  lemma StatusRead(s: string, r: Response)
    requires Separable(r) && At(s, 0, StatusLine(r))
    ensures ReadStatus(s) == Good(Response(r.version, r.status, r.message, map[], ""), |StatusLine(r)|)
  {
    hide ReadUnsigned, PrintNat, At, SkipSpace, TokenEnd, LineEnd, IsValidHttpVersion, IsDigit;
    var code := PrintNat(r.status);
    var b := |r.version|;
    var c := b + 1 + |code|;
    StatusParts(s, r.version, code, r.message);
    VersionRead(s, r.version);
    UnsignedRead(s, b, r.status, STATUS_LIMIT) by { BlankIsNoDigit(s[c]); }
    MessageRead(s, c + 1, r.message);
  }

  lemma BlankIsNoDigit(c: char)
    requires c == ' '
    ensures !IsDigit(c)
  {
  }

  lemma StatusParts(s: string, version: string, code: string, message: string)
    requires At(s, 0, version + " " + code + " " + message + CRLF)
    ensures var b := |version|;
      var c := b + 1 + |code|;
      && c < |s| && s[b] == ' ' && s[c] == ' '
      && At(s, 0, version) && At(s, b + 1, code) && At(s, c + 1, message + CRLF)
  {
    hide At;
    var b := |version|;
    var c := b + 1 + |code|;
    var rest := message + CRLF;
    StatusRegroup(version, " ", code, message, CRLF);
    AtSplit(s, 0, version, " " + (code + (" " + rest)));
    AtSplit(s, b, " ", code + (" " + rest));
    AtSplit(s, b + 1, code, " " + rest);
    AtSplit(s, c, " ", rest);
    AtChar(s, b, " ", 0);
    AtChar(s, c, " ", 0);
  }

  lemma StatusRegroup(version: string, blank: string, code: string, message: string, end: string)
    ensures version + blank + code + blank + message + end
         == version + (blank + (code + (blank + (message + end))))
  {
  }

  lemma MessageRead(s: string, i: nat, message: string)
    requires At(s, i, message + CRLF) && NoReturn(message)
    ensures i <= |s| && LineEnd(s, i) == i + |message| && i + |message| + 1 < |s|
    ensures s[i + |message| + 1] == '\n' && s[i..i + |message|] == message
  {
    var e := i + |message|;
    AtSplit(s, i, message, CRLF);
    AtChar(s, e, CRLF, 0);
    AtChar(s, e, CRLF, 1);
    forall k | i <= k < e ensures s[k] != '\r' {
      AtChar(s, i, message, k - i);
    }
    LineEndAt(s, i, e);
  }

  lemma VersionRead(s: string, version: string)
    requires IsValidHttpVersion(version) && At(s, 0, version) && |version| < |s| && s[|version|] == ' '
    ensures SkipSpace(s, 0) == 0 && TokenEnd(s, 0) == |version| && s[0..|version|] == version
  {
    forall k | 0 <= k < |version| ensures !IsSpace(s[k]) {
      AtChar(s, 0, version, k);
      VersionHasNoSpace(version, k);
    }
    AtChar(s, 0, version, 0);
    TokenEndAt(s, 0, |version|);
  }

  lemma VersionHasNoSpace(version: string, k: nat)
    requires IsValidHttpVersion(version) && k < |version|
    ensures !IsSpace(version[k]) && version[k] != '\r'
  {
  }

  // The header block is read back

  lemma {:induction false} FindColonAt(s: string, i: nat, j: nat)
    requires i <= j < |s| && s[j] == ':' && forall k :: i <= k < j ==> s[k] != ':'
    ensures FindColon(s, i) == j
    decreases j - i
  {
    if i < j {
      FindColonAt(s, i + 1, j);
    }
  }

  lemma LineRead(headers: Headers, name: string, value: string)
    requires NoColon(name)
    ensures AddHeader(headers, name + ": " + value) == headers[name := ReadBack(value)]
  {
    var line := name + ": " + value;
    assert line == name + (": " + value);
    assert line[|name|] == ':' && line[..|name|] == name;
    FindColonAt(line, 0, |name|);
    SkipBlanksShift(name, ": " + value, 1);
    var pos := SkipBlanks(": " + value, 1);
    assert line[|name| + pos..] == (": " + value)[pos..];
  }

  /** However many blanks, or none, stand behind the colon, a header line sets the name in front of
      its first colon to the rest of the line, or to nothing when that is a single character. A line
      without a colon sets nothing. */
  lemma AnyLineRead(headers: Headers, name: string, blanks: string, value: string)
    requires NoColon(name) && (forall i :: 0 <= i < |blanks| ==> blanks[i] == ' ')
    requires value != "" ==> value[0] != ' '
    ensures AddHeader(headers, name + ":" + blanks + value) == headers[name := if |value| == 1 then "" else value]
    ensures AddHeader(headers, name) == headers
  {
    var line := name + ":" + blanks + value;
    assert line[|name|] == ':' && line[..|name|] == name;
    FindColonAt(line, 0, |name|);
    var start := |name| + 1;
    BlanksSkipped(line, start, start + |blanks|);
    assert line[start + |blanks|..] == value;
    NoColonFound(name, 0);
  }

  lemma {:induction false} NoColonFound(s: string, i: nat)
    requires i <= |s| && NoColon(s)
    ensures FindColon(s, i) == |s|
    decreases |s| - i
  {
    if i < |s| {
      NoColonFound(s, i + 1);
    }
  }

  lemma {:induction false} BlanksSkipped(s: string, i: nat, j: nat)
    requires i <= j <= |s| && (forall k :: i <= k < j ==> s[k] == ' ') && (j < |s| ==> s[j] != ' ')
    ensures SkipBlanks(s, i) == j
    decreases j - i
  {
    if i < j {
      BlanksSkipped(s, i + 1, j);
    }
  }

  function AddAll(headers: Headers, order: seq<string>, acc: Headers): Headers
    requires forall i :: 0 <= i < |order| ==> order[i] in headers
  {
    if order == [] then acc else AddAll(headers, order[1..], acc[order[0] := ReadBack(headers[order[0]])])
  }

  lemma {:induction false} HeadersRead(s: string, i: nat, headers: Headers, order: seq<string>, acc: Headers)
    requires forall k :: 0 <= k < |order| ==> order[k] in headers
    requires forall name :: name in headers ==>
      NoReturn(name) && NoColon(name) && NoReturn(headers[name])
    requires At(s, i, HeaderBlock(headers, order))
    ensures ReadHeaders(s, i, acc) == Good(AddAll(headers, order, acc), i + |HeaderBlock(headers, order)|)
    decreases |order|
  {
    hide At, LineEnd, ReadBack, AddHeader, HeaderLine;
    if order == [] {
      AtChar(s, i, CRLF, 0);
      AtChar(s, i, CRLF, 1);
      LineEndAt(s, i, i);
    } else {
      var name, value := order[0], headers[order[0]];
      var line := HeaderLine(name, value);
      AtSplit(s, i, line, HeaderBlock(headers, order[1..]));
      LineIsFound(s, i, name, value);
      LineRead(acc, name, value);
      HeadersRead(s, i + |line|, headers, order[1..], acc[name := ReadBack(value)]);
    }
  }

  lemma LineIsFound(s: string, i: nat, name: string, value: string)
    requires At(s, i, HeaderLine(name, value)) && NoReturn(name) && NoReturn(value)
    ensures var e := i + |HeaderLine(name, value)| - 2;
      && i < e && e + 1 < |s| && LineEnd(s, i) == e && s[e + 1] == '\n'
      && s[i..e] == name + ": " + value
  {
    var text := name + ": " + value;
    AtSplit(s, i, text, CRLF);
    var e := i + |text|;
    AtChar(s, e, CRLF, 0);
    AtChar(s, e, CRLF, 1);
    forall k | i <= k < e ensures s[k] != '\r' {
      AtChar(s, i, text, k - i);
    }
    LineEndAt(s, i, e);
    assert s[i..e] == text;
  }

  lemma {:induction false} AddAllAt(headers: Headers, order: seq<string>, acc: Headers, name: string)
    requires forall i :: 0 <= i < |order| ==> order[i] in headers
    ensures var r := AddAll(headers, order, acc);
      && (name in order ==> name in r && r[name] == ReadBack(headers[name]))
      && (name !in order ==> (name in r <==> name in acc) && (name in r ==> r[name] == acc[name]))
    decreases |order|
  {
    if order != [] {
      assert order == [order[0]] + order[1..];
      AddAllAt(headers, order[1..], acc[order[0] := ReadBack(headers[order[0]])], name);
    }
  }

  lemma AddAllVisited(headers: Headers, order: seq<string>)
    requires Visits(order, headers)
    ensures AddAll(headers, order, map[]) == ReadBackAll(headers)
  {
    var r := AddAll(headers, order, map[]);
    forall name ensures (name in r <==> name in headers) && (name in r ==> r[name] == ReadBack(headers[name])) {
      AddAllAt(headers, order, map[], name);
    }
  }

  // Malformed messages

  /** Header lines, each with its line break, and an empty line. */
  function BlockOf(lines: seq<string>): string {
    if lines == [] then CRLF else lines[0] + CRLF + BlockOf(lines[1..])
  }

  predicate ProperLines(lines: seq<string>) { forall k :: 0 <= k < |lines| ==> lines[k] != "" && NoReturn(lines[k]) }

  function AddLines(headers: Headers, lines: seq<string>): Headers
    decreases |lines|
  {
    if lines == [] then headers else AddLines(AddHeader(headers, lines[0]), lines[1..])
  }

  lemma LineEndsHere(s: string, i: nat, line: string, rest: string)
    requires At(s, i, line + CRLF + rest) && NoReturn(line)
    ensures var e := i + |line|;
      && LineEnd(s, i) == e && e + 1 < |s| && s[e] == '\r' && s[e + 1] == '\n' && s[i..e] == line
      && At(s, e + 2, rest)
  {
    var e := i + |line|;
    assert line + CRLF + rest == line + (CRLF + rest);
    AtSplit(s, i, line, CRLF + rest);
    AtSplit(s, e, CRLF, rest);
    AtChar(s, e, CRLF, 0);
    AtChar(s, e, CRLF, 1);
    forall k | i <= k < e ensures s[k] != '\r' {
      AtChar(s, i, line, k - i);
    }
    LineEndAt(s, i, e);
  }

  lemma {:induction false} BlockIsRead(s: string, i: nat, lines: seq<string>, acc: Headers)
    requires ProperLines(lines) && At(s, i, BlockOf(lines))
    ensures ReadHeaders(s, i, acc) == Good(AddLines(acc, lines), i + |BlockOf(lines)|)
    decreases |lines|
  {
    hide At, LineEnd, AddHeader;
    if lines == [] {
      assert "" + CRLF + "" == CRLF;
      LineEndsHere(s, i, "", "");
    } else {
      LineEndsHere(s, i, lines[0], BlockOf(lines[1..]));
      BlockIsRead(s, i + |lines[0]| + 2, lines[1..], AddHeader(acc, lines[0]));
    }
  }

  lemma {:induction false} NoReturnBefore(s: string, i: nat)
    requires i <= |s|
    ensures NoReturn(s[i..LineEnd(s, i)])
    decreases |s| - i
  {
    if i < |s| && s[i] != '\r' {
      NoReturnBefore(s, i + 1);
      assert s[i..LineEnd(s, i)] == [s[i]] + s[i + 1..LineEnd(s, i)];
    }
  }

  lemma LineThenBlock(s: string, i: nat, e: nat, rest: seq<string>)
    requires i <= e && e + 2 <= |s| && s[e] == '\r' && s[e + 1] == '\n' && At(s, e + 2, BlockOf(rest))
    ensures BlockOf([s[i..e]] + rest) == s[i..e] + CRLF + BlockOf(rest)
    ensures At(s, i, s[i..e] + CRLF + BlockOf(rest))
  {
    assert ([s[i..e]] + rest)[1..] == rest;
    assert s[e..e + 2] == CRLF;
    var n := e + 2 + |BlockOf(rest)|;
    assert s[i..n] == s[i..e] + s[e..e + 2] + s[e + 2..n];
  }

  lemma EmptyLineIsBlock(s: string, i: nat)
    requires i + 1 < |s| && s[i] == '\r' && s[i + 1] == '\n'
    ensures At(s, i, BlockOf([]))
  {
    assert s[i..i + 2] == CRLF;
  }

  lemma {:induction false} ReadIsBlock(s: string, i: nat, acc: Headers) returns (lines: seq<string>)
    requires i <= |s| && ReadHeaders(s, i, acc).Good?
    ensures ProperLines(lines) && At(s, i, BlockOf(lines))
    decreases |s| - i
  {
    hide ReadHeaders, At, BlockOf, AddHeader, NoReturn, LineEnd;
    OneHeaderOn(s, i, acc);
    var e := LineEnd(s, i);
    if e == i {
      lines := [];
      EmptyLineIsBlock(s, i);
    } else {
      NoReturnBefore(s, i);
      var rest := ReadIsBlock(s, e + 2, AddHeader(acc, s[i..e]));
      lines := [s[i..e]] + rest;
      LineThenBlock(s, i, e, rest);
    }
  }

  /** The header block is accepted exactly when it consists of lines that end with a carriage return and
      a line feed, up to an empty one; then each of them is added in turn. Anything else is refused. */
  lemma HeadersExactly(s: string)
    ensures ReadHeaders(s, 0, map[]).Good? <==> exists lines :: ProperLines(lines) && At(s, 0, BlockOf(lines))
    ensures forall lines :: ProperLines(lines) && At(s, 0, BlockOf(lines)) ==>
      ReadHeaders(s, 0, map[]) == Good(AddLines(map[], lines), |BlockOf(lines)|)
  {
    hide ReadHeaders, At, BlockOf, ProperLines, AddLines;
    forall lines | ProperLines(lines) && At(s, 0, BlockOf(lines))
      ensures ReadHeaders(s, 0, map[]) == Good(AddLines(map[], lines), |BlockOf(lines)|)
    {
      BlockIsRead(s, 0, lines, map[]);
    }
    if ReadHeaders(s, 0, map[]).Good? {
      var lines := ReadIsBlock(s, 0, map[]);
    }
  }

  /** What a status line that is accepted must be: one of two versions, a status that fits, and a message
      up to a carriage return and a line feed. */
  lemma StatusMeans(s: string)
    requires ReadStatus(s).Good?
    ensures var r, p := ReadStatus(s).value, ReadStatus(s).pos;
      && (r.version == "HTTP/1.1" || r.version == "HTTP/1.0")
      && r.status < 0x1_0000_0000 && NoReturn(r.message)
      && p >= |r.message| + 2 && p <= |s| && s[p - 2..p] == "\r\n" && s[p - 2 - |r.message|..p - 2] == r.message
  {
    var a := SkipSpace(s, 0);
    var code := ReadUnsigned(s, TokenEnd(s, a), STATUS_LIMIT);
    NoReturnBefore(s, code.pos + 1);
  }

  // Where the delimiters are not

  /** No proper prefix of the status line holds a line end. */
  lemma StatusLineEndsOnce(r: Response, p: string)
    requires Separable(r) && p < StatusLine(r)
    ensures !Contains(p, CRLF)
  {
    var line := StatusLine(r);
    forall i: nat | i <= |p| ensures !At(p, i, CRLF) {
      if At(p, i, CRLF) {
        AtChar(p, i, CRLF, 0);
        assert line[i] == '\r' && i + 2 < |line|;
        NoReturnInStatus(r, i);
      }
    }
  }

  lemma {:induction false} NoReturnInNat(n: nat)
    ensures NoReturn(PrintNat(n))
  {
    if n >= 10 {
      NoReturnInNat(n / 10);
    }
  }

  lemma NoReturnInStatus(r: Response, i: nat)
    requires Separable(r) && i + 2 < |StatusLine(r)|
    ensures StatusLine(r)[i] != '\r'
  {
    NoReturnInNat(r.status);
    if i < |r.version| {
      VersionHasNoSpace(r.version, i);
    }
  }

  /** A carriage return two places after another one stands only at the end of the header block. */
  lemma {:induction false} BlankLineIsLast(headers: Headers, order: seq<string>, i: nat)
    requires forall k :: 0 <= k < |order| ==> order[k] in headers
    requires forall name :: name in headers ==>
      NoReturn(name) && NoColon(name) && NoReturn(headers[name])
    requires i + 4 < |HeaderBlock(headers, order)| && HeaderBlock(headers, order)[i] == '\r'
    ensures HeaderBlock(headers, order)[i + 2] != '\r'
    decreases |order|
  {
    var name, value := order[0], headers[order[0]];
    var line, rest := HeaderLine(name, value), HeaderBlock(headers, order[1..]);
    var text := name + ": " + value;
    assert line == text + CRLF;
    if i < |line| {
      assert NoReturn(text);
      assert i == |text|;
      assert HeaderBlock(headers, order)[i + 2] == rest[0];
      HeaderBlockStart(headers, order[1..]);
    } else {
      assert HeaderBlock(headers, order)[i] == rest[i - |line|];
      BlankLineIsLast(headers, order[1..], i - |line|);
    }
  }

  lemma HeaderBlockStart(headers: Headers, order: seq<string>)
    requires forall k :: 0 <= k < |order| ==> order[k] in headers
    requires forall name :: name in headers ==> NoReturn(name)
    requires |HeaderBlock(headers, order)| > 2
    ensures HeaderBlock(headers, order)[0] != '\r'
  {
    assert order != [];
    assert HeaderBlock(headers, order)[0] == HeaderLine(order[0], headers[order[0]])[0];
  }

  lemma HeaderBlockEndsOnce(headers: Headers, order: seq<string>, p: string)
    requires forall k :: 0 <= k < |order| ==> order[k] in headers
    requires forall name :: name in headers ==>
      NoReturn(name) && NoColon(name) && NoReturn(headers[name])
    requires p < HeaderBlock(headers, order)
    ensures !Contains(p, BLANK_LINE)
  {
    var block := HeaderBlock(headers, order);
    forall i: nat | i <= |p| ensures !At(p, i, BLANK_LINE) {
      if At(p, i, BLANK_LINE) {
        AtChar(p, i, BLANK_LINE, 0);
        AtChar(p, i, BLANK_LINE, 2);
        assert block[i] == '\r' && block[i + 2] == '\r';
        BlankLineIsLast(headers, order, i);
      }
    }
  }

  lemma {:induction false} HeaderBlockHasBlankLine(headers: Headers, order: seq<string>)
    requires order != [] && forall k :: 0 <= k < |order| ==> order[k] in headers
    ensures var n := |HeaderBlock(headers, order)|; n >= 4 && At(HeaderBlock(headers, order), n - 4, BLANK_LINE)
    decreases |order|
  {
    var block := HeaderBlock(headers, order);
    var line, rest := HeaderLine(order[0], headers[order[0]]), HeaderBlock(headers, order[1..]);
    assert block == line + rest;
    if |order| == 1 {
      assert rest == CRLF;
      assert block[|block| - 4..] == BLANK_LINE;
    } else {
      HeaderBlockHasBlankLine(headers, order[1..]);
      assert block[|block| - 4..] == rest[|rest| - 4..];
    }
  }
}

/** Request bodies, the requests that carry them, the length they declare, and what is printed to
    the log and to the connection on each attempt (src/Networking/Http/HttpContent.cpp,
    src/Networking/Http/HttpRequest.cpp, src/Networking/Http/HttpClientMT.cpp). */
module HttpContent {
  import opened HttpMessage
  import opened Options
  import opened Texts

  // An output stream and what is written to it

  /** The characters written and whether the stream still takes more. */
  datatype Output = Output(text: string, good: bool)

  function Write(o: Output, s: string): Output { if o.good then o.(text := o.text + s) else o }

  /** `ost << rdbuf`, where `rest` is what the buffer has left: to insert nothing fails the stream. */
  function Insert(o: Output, rest: string): Output {
    if rest == "" then o.(good := false) else Write(o, rest)
  }

  // Multipart bodies

  const BOUNDARY := "------------------------a452714f3cf68d90"

  /** A part: its headers, what its stream holds from the start, and the size recorded for it. */
  datatype Part = Part(headers: string, data: string, size: nat)

  function PartStart(p: Part): string { "--" + BOUNDARY + CRLF + p.headers + BLANK_LINE }

  function WritePart(o: Output, p: Part): Output { Write(Insert(Write(o, PartStart(p)), p.data), CRLF) }

  function WriteParts(o: Output, parts: seq<Part>): Output
    decreases |parts|
  {
    if parts == [] then o else WriteParts(WritePart(o, parts[0]), parts[1..])
  }

  const CLOSING := "--" + BOUNDARY + "--" + CRLF

  function WriteBody(o: Output, parts: seq<Part>): Output {
    if parts == [] then o else Write(WriteParts(o, parts), CLOSING)
  }

  /** The declared length: the boundary and four characters, the part, two more; six at the end. */
  function PartLengths(parts: seq<Part>): nat {
    if parts == [] then 0
    else |BOUNDARY| + 4 + (|parts[0].headers| + 4 + parts[0].size) + 2 + PartLengths(parts[1..])
  }

  function DeclaredLength(parts: seq<Part>): nat {
    if parts == [] then 0 else PartLengths(parts) + |BOUNDARY| + 6
  }

  // The body as section 5.1.1 of RFC 2046 lays it out

  function PartTexts(parts: seq<Part>): string {
    if parts == [] then "" else PartStart(parts[0]) + parts[0].data + CRLF + PartTexts(parts[1..])
  }

  function Body(parts: seq<Part>): string { if parts == [] then "" else PartTexts(parts) + CLOSING }

  predicate SizesRecorded(parts: seq<Part>) { forall i :: 0 <= i < |parts| ==> parts[i].size == |parts[i].data| }

  predicate NoneEmpty(parts: seq<Part>) { forall i :: 0 <= i < |parts| ==> parts[i].data != "" }

  lemma {:induction false} PartsLength(parts: seq<Part>)
    requires SizesRecorded(parts)
    ensures |PartTexts(parts)| == PartLengths(parts)
  {
    if parts != [] {
      assert |PartStart(parts[0])| == |BOUNDARY| + |parts[0].headers| + 8;
      PartsLength(parts[1..]);
    }
  }

  /** With recorded sizes the declared length is the length of the laid-out body. */
  lemma DeclaredIsBodyLength(parts: seq<Part>)
    requires SizesRecorded(parts)
    ensures DeclaredLength(parts) == |Body(parts)|
  {
    PartsLength(parts);
  }

  lemma {:induction false} WritesParts(o: Output, parts: seq<Part>)
    requires o.good && NoneEmpty(parts)
    ensures WriteParts(o, parts) == Output(o.text + PartTexts(parts), true)
    decreases |parts|
  {
    if parts == [] {
      assert o.text + "" == o.text;
    } else {
      WritesParts(WritePart(o, parts[0]), parts[1..]);
      Regroup(o.text, PartStart(parts[0]), parts[0].data, CRLF, PartTexts(parts[1..]));
    }
  }

  lemma Regroup(a: string, b: string, c: string, d: string, e: string)
    ensures a + b + c + d + e == a + (b + c + d + e)
  {
  }

  lemma NothingWritten(o: Output)
    requires o.good
    ensures Output(o.text + "", true) == o
  {
    assert o.text + "" == o.text;
  }

  /** When no part is empty, exactly the laid-out body is written. */
  lemma WritesBody(o: Output, parts: seq<Part>)
    requires o.good && NoneEmpty(parts)
    ensures WriteBody(o, parts) == Output(o.text + Body(parts), true)
  {
    hide NoneEmpty, PartTexts, WriteParts;
    WritesParts(o, parts);
    assert o.text + (PartTexts(parts) + CLOSING) == o.text + PartTexts(parts) + CLOSING;
    if parts == [] {
      NothingWritten(o);
    }
  }

  lemma {:induction false} FailedStaysFailed(o: Output, parts: seq<Part>)
    requires !o.good
    ensures WriteParts(o, parts) == o
    decreases |parts|
  {
    if parts != [] {
      FailedStaysFailed(o, parts[1..]);
    }
  }

  lemma {:induction false} WritePartsSplit(o: Output, a: seq<Part>, b: seq<Part>)
    ensures WriteParts(o, a + b) == WriteParts(WriteParts(o, a), b)
    decreases |a|
  {
    if a == [] {
      assert a + b == b;
    } else {
      assert (a + b)[1..] == a[1..] + b;
      WritePartsSplit(WritePart(o, a[0]), a[1..], b);
    }
  }

  /** An empty part ends the body after its headers: the stream fails and takes nothing more, not
      the parts that follow and not the closing boundary. */
  lemma EmptyPartCutsBody(o: Output, before: seq<Part>, empty: Part, after: seq<Part>)
    requires o.good && NoneEmpty(before) && empty.data == ""
    ensures WriteBody(o, before + [empty] + after) ==
            Output(o.text + PartTexts(before) + PartStart(empty), false)
  {
    WritePartsSplit(o, before + [empty], after);
    WritePartsSplit(o, before, [empty]);
    WritesParts(o, before);
    var atEmpty := Output(o.text + PartTexts(before), true);
    assert WriteParts(atEmpty, [empty]) == WritePart(atEmpty, empty);
    FailedStaysFailed(WritePart(atEmpty, empty), after);
  }

  lemma {:induction false} PartTextsSplit(a: seq<Part>, b: seq<Part>)
    ensures PartTexts(a + b) == PartTexts(a) + PartTexts(b)
    decreases |a|
  {
    if a == [] {
      assert a + b == b;
    } else {
      assert (a + b)[1..] == a[1..] + b;
      PartTextsSplit(a[1..], b);
    }
  }

  lemma FirstEmpty(parts: seq<Part>) returns (i: nat)
    requires !NoneEmpty(parts)
    ensures i < |parts| && parts[i].data == "" && NoneEmpty(parts[..i])
  {
    i := 0;
    while parts[i].data != ""
      invariant i < |parts| && NoneEmpty(parts[..i])
      invariant exists k :: i <= k < |parts| && parts[k].data == ""
      decreases |parts| - i
    {
      i := i + 1;
    }
  }

  lemma CutBodyIsShorter(before: seq<Part>, empty: Part, after: seq<Part>)
    ensures |PartTexts(before) + PartStart(empty)| < |Body(before + [empty] + after)|
  {
    PartTextsSplit(before + [empty], after);
    PartTextsSplit(before, [empty]);
    assert PartTexts([empty]) == PartStart(empty) + empty.data + CRLF + PartTexts([]);
  }

  /** Content-Length equals the bytes written exactly when no part is empty. */
  lemma LengthIsRightExactly(o: Output, parts: seq<Part>)
    requires o.good && SizesRecorded(parts)
    ensures |WriteBody(o, parts).text| == |o.text| + DeclaredLength(parts) <==> NoneEmpty(parts)
  {
    hide DeclaredLength, WriteBody, Body, PartTexts, PartStart, SizesRecorded;
    DeclaredIsBodyLength(parts);
    if NoneEmpty(parts) {
      WritesBody(o, parts);
    } else {
      var i := FirstEmpty(parts);
      var before, empty, after := parts[..i], parts[i], parts[i + 1..];
      assert parts == before + [empty] + after;
      EmptyPartCutsBody(o, before, empty, after);
      CutBodyIsShorter(before, empty, after);
    }
  }

  // A content that is a stream

  /** `HttpStreamContent::Save`: from where the stream stands to its end. */
  function WriteStream(o: Output, data: string, pos: nat): Output
    requires pos <= |data|
  {
    Insert(o, data[pos..])
  }

  /** The whole size is declared, so the length is right exactly while nothing has been read. */
  lemma StreamLengthIsRightExactly(o: Output, data: string, pos: nat)
    requires o.good && pos <= |data|
    ensures |WriteStream(o, data, pos).text| == |o.text| + |data| <==> pos == 0
  {
  }

  // Contents and requests

  /** A content as it is to be written: a text, a stream of which some has been read, or parts. */
  datatype Content =
    | Text(kind: string, str: string)
    | Stream(data: string, read: nat)
    | Multipart(parts: seq<Part>)

  function Rest(data: string, read: nat): string { if read <= |data| then data[read..] else "" }

  function WriteContent(o: Output, c: Content): Output {
    match c
    case Text(_, str) => Write(o, str)
    case Stream(data, read) => Insert(o, Rest(data, read))
    case Multipart(parts) => WriteBody(o, parts)
  }

  function GetLength(c: Content): nat {
    match c
    case Text(_, str) => |str|
    case Stream(data, _) => |data|
    case Multipart(parts) => DeclaredLength(parts)
  }

  function KindOf(c: Content): string {
    match c
    case Text(kind, _) => kind
    case Stream(_, _) => "application/octet-stream"
    case Multipart(_) => "multipart/form-data; boundary=" + BOUNDARY
  }

  /** Each part is non-empty and of its recorded size; nothing of a stream has been read. */
  predicate Complete(c: Content) {
    match c
    case Text(_, _) => true
    case Stream(data, read) => read == 0 && data != ""
    case Multipart(parts) => SizesRecorded(parts) && NoneEmpty(parts)
  }

  datatype Method = Get | Post | Put | Delete

  type Params = seq<(string, string)>

  datatype RequestData =
    RequestData(verb: Method, path: string, params: Params, headers: Headers, content: Option<Content>)

  const CONTENT_TYPE := "Content-Type"

  /** `SetContent`. */
  function WithContent(r: RequestData, c: Content): RequestData {
    r.(content := Some(c),
       headers := r.headers[CONTENT_LENGTH := PrintNat(GetLength(c))][CONTENT_TYPE := KindOf(c)])
  }

  function VerbText(verb: Method): string {
    match verb
    case Get => "GET"
    case Post => "POST"
    case Put => "PUT"
    case Delete => "DELETE"
  }

  function ParamText(p: (string, string)): string { p.0 + "=" + p.1 }

  function MoreParams(params: Params): string {
    if params == [] then "" else "&" + ParamText(params[0]) + MoreParams(params[1..])
  }

  function Target(r: RequestData): string {
    if r.params == [] then r.path else r.path + "?" + ParamText(r.params[0]) + MoreParams(r.params[1..])
  }

  function RequestLine(r: RequestData): string { VerbText(r.verb) + " " + Target(r) + " HTTP/1.1" + CRLF }

  /** `operator<<`, with the header table visited in the given order. */
  function WriteRequest(o: Output, r: RequestData, order: seq<string>): Output
    requires Visits(order, r.headers)
  {
    var head := Write(o, RequestLine(r) + HeaderBlock(r.headers, order));
    if r.content.None? then head else WriteContent(head, r.content.value)
  }

  lemma WritesContent(o: Output, c: Content)
    requires o.good && Complete(c)
    ensures WriteContent(o, c).good && |WriteContent(o, c).text| == |o.text| + GetLength(c)
    ensures o.text <= WriteContent(o, c).text
  {
    if c.Multipart? {
      WritesBody(o, c.parts);
      DeclaredIsBodyLength(c.parts);
    }
  }

  /** After its head a request carries exactly as many characters as the Content-Length among its
      headers, read back as a number, promises. */
  lemma RequestKeepsItsPromise(o: Output, r: RequestData, c: Content, order: seq<string>)
    requires o.good && Complete(c) && GetLength(c) < SIZE_LIMIT - 1
    requires Visits(order, WithContent(r, c).headers)
    ensures var sent := WithContent(r, c);
      var head := o.text + (RequestLine(sent) + HeaderBlock(sent.headers, order));
      var all := WriteRequest(o, sent, order);
      && all.good && head <= all.text
      && ContentLength(sent.headers) == Some(|all.text| - |head|)
  {
    hide WriteContent, GetLength, Complete, RequestLine, HeaderBlock, ReadUnsigned, PrintNat, KindOf;
    var sent := WithContent(r, c);
    var head := Write(o, RequestLine(sent) + HeaderBlock(sent.headers, order));
    WritesContent(head, c);
    PrintedNumberIsRead(GetLength(c), SIZE_LIMIT);
    DeclaresItsLength(r, c);
  }

  lemma DeclaresItsLength(r: RequestData, c: Content)
    ensures CONTENT_LENGTH in WithContent(r, c).headers
    ensures WithContent(r, c).headers[CONTENT_LENGTH] == PrintNat(GetLength(c))
  {
    assert CONTENT_LENGTH != CONTENT_TYPE by { assert CONTENT_LENGTH[8] != CONTENT_TYPE[8]; }
  }

  /** Setting a content declares its length and its type, and touches no other header. */
  lemma DeclaresContent(r: RequestData, c: Content, name: string)
    ensures var headers := WithContent(r, c).headers;
      && (name == "Content-Length" ==> name in headers && headers[name] == PrintNat(GetLength(c)))
      && (name == "Content-Type" ==>
            && name in headers
            && headers[name] == (if c.Text? then c.kind
                                 else if c.Stream? then "application/octet-stream"
                                 else "multipart/form-data; boundary=" + BOUNDARY))
      && (name != "Content-Length" && name != "Content-Type" ==>
            (name in headers <==> name in r.headers) && (name in headers ==> headers[name] == r.headers[name]))
  {
    DeclaresItsLength(r, c);
  }

  // The attempts to send a request: each prints it twice, first for the log

  const EMPTY := Output("", true)

  /** The content after it has been printed to a stream that takes it. */
  function Spent(c: Content): Content { if c.Stream? && c.read < |c.data| then c.(read := |c.data|) else c }

  function Printed(r: RequestData): RequestData {
    if r.content.Some? then r.(content := Some(Spent(r.content.value))) else r
  }

  /** What an attempt writes to the log and to the connection. */
  datatype Sent = Sent(log: Output, wire: Output)

  /** `SendRequest`. */
  function Attempt(r: RequestData, order: seq<string>): Sent
    requires Visits(order, r.headers)
  {
    Sent(WriteRequest(EMPTY, r, order), WriteRequest(EMPTY, Printed(r), order))
  }

  /** The request after n attempts. */
  function AfterAttempts(r: RequestData, n: nat): (t: RequestData)
    ensures t.headers == r.headers
  {
    if n == 0 then r else Printed(Printed(AfterAttempts(r, n - 1)))
  }

  lemma {:induction false} SpentOnce(r: RequestData, n: nat)
    ensures Printed(Printed(r)) == Printed(r)
    ensures AfterAttempts(r, n) == if n == 0 then r else Printed(r)
  {
    if n > 0 {
      SpentOnce(r, n - 1);
    }
  }

  /** The content is a stream with something left to read. */
  predicate Unread(r: RequestData) {
    r.content.Some? && r.content.value.Stream? && r.content.value.read < |r.content.value.data|
  }

  function HeadText(r: RequestData, order: seq<string>): string
    requires Visits(order, r.headers)
  {
    RequestLine(r) + HeaderBlock(r.headers, order)
  }

  lemma StreamPrints(r: RequestData, order: seq<string>)
    requires Visits(order, r.headers) && r.content.Some? && r.content.value.Stream?
    ensures var c := r.content.value;
      && WriteRequest(EMPTY, r, order)
         == Output(HeadText(r, order) + Rest(c.data, c.read), Rest(c.data, c.read) != "")
      && WriteRequest(EMPTY, Printed(r), order) == Output(HeadText(r, order), false)
  {
    hide HeaderBlock;
    var c := r.content.value;
    assert RequestLine(Printed(r)) == RequestLine(r);
    assert "" + HeadText(r, order) == HeadText(r, order);
    assert HeadText(r, order) + "" == HeadText(r, order);
  }

  /** Every attempt writes the same to the log and to the connection, whatever the content, unless
      it is a stream of which something is left to read. That is printed to the first log only:
      no attempt brings any of it to the connection. */
  lemma EveryAttemptIsTheSameExactly(r: RequestData, order: seq<string>)
    requires Visits(order, r.headers)
    ensures !Unread(r) <==>
      forall n: nat ::
        Attempt(AfterAttempts(r, n), order) == Sent(WriteRequest(EMPTY, r, order), WriteRequest(EMPTY, r, order))
    ensures Unread(r) ==>
      && Attempt(r, order).log.text == HeadText(r, order) + r.content.value.data[r.content.value.read..]
      && forall n: nat :: Attempt(AfterAttempts(r, n), order).wire == Output(HeadText(r, order), false)
  {
    hide WriteRequest, HeadText;
    forall n: nat ensures AfterAttempts(r, n) == if n == 0 then r else Printed(r) {
      SpentOnce(r, n);
    }
    SpentOnce(r, 0);
    if Unread(r) {
      StreamPrints(r, order);
      assert Attempt(AfterAttempts(r, 0), order).wire.good == false;
    } else {
      assert Printed(r) == r;
    }
  }

  /** On every attempt a request brings as many characters after its head to the connection as its
      Content-Length, read back, promises, exactly when its content is not a stream that holds
      anything. */
  lemma PromiseIsKeptExactly(r: RequestData, c: Content, order: seq<string>, n: nat)
    requires (c.Multipart? ==> Complete(c)) && GetLength(c) < SIZE_LIMIT - 1
    requires Visits(order, WithContent(r, c).headers)
    ensures var sent := WithContent(r, c);
      var wire := Attempt(AfterAttempts(sent, n), order).wire;
      |wire.text| >= |HeadText(sent, order)|
      && (ContentLength(sent.headers) == Some(|wire.text| - |HeadText(sent, order)|)
          <==> !(c.Stream? && c.data != ""))
  {
    hide WriteRequest, HeadText, GetLength, Complete, ReadUnsigned, PrintNat, KindOf, WithContent;
    var sent := WithContent(r, c);
    HasContent(r, c);
    SpentOnce(sent, n);
    SpentOnce(sent, 0);
    if c.Stream? {
      StreamPrints(sent, order);
      DeclaredIsRead(r, c);
      StreamLength(c);
    } else {
      PromiseOfFirstPrint(r, c, order);
      assert Printed(sent) == sent;
    }
  }

  lemma HasContent(r: RequestData, c: Content)
    ensures WithContent(r, c).content == Some(c)
  {
  }

  lemma StreamLength(c: Content)
    requires c.Stream?
    ensures GetLength(c) == |c.data|
  {
  }

  lemma DeclaredIsRead(r: RequestData, c: Content)
    requires GetLength(c) < SIZE_LIMIT - 1
    ensures ContentLength(WithContent(r, c).headers) == Some(GetLength(c))
  {
    hide ReadUnsigned, PrintNat, GetLength, KindOf;
    PrintedNumberIsRead(GetLength(c), SIZE_LIMIT);
    DeclaresItsLength(r, c);
  }

  lemma PromiseOfFirstPrint(r: RequestData, c: Content, order: seq<string>)
    requires !c.Stream? && (c.Multipart? ==> Complete(c)) && GetLength(c) < SIZE_LIMIT - 1
    requires Visits(order, WithContent(r, c).headers)
    ensures var sent := WithContent(r, c);
      var text := WriteRequest(EMPTY, sent, order).text;
      |text| >= |HeadText(sent, order)|
      && ContentLength(sent.headers) == Some(|text| - |HeadText(sent, order)|)
  {
    hide WriteContent, GetLength, RequestLine, HeaderBlock, ReadUnsigned, PrintNat, KindOf, WriteRequest;
    assert Complete(c);
    RequestKeepsItsPromise(EMPTY, r, c, order);
    assert "" + HeadText(WithContent(r, c), order) == HeadText(WithContent(r, c), order);
  }

  // The streams and objects that do this

  class OutputStream {
    var text: string
    var good: bool

    ghost function Abs(): Output
      reads this
    {
      Output(text, good)
    }

    constructor ()
      ensures Abs() == Output("", true)
    {
      text, good := "", true;
    }

    method Put(s: string)
      modifies this
      ensures Abs() == Write(old(Abs()), s)
    {
      if good {
        text := text + s;
      }
    }

    /** Drains the source from where it stands, unless this stream has failed. */
    method PutBuffer(source: InputStream)
      requires source.Valid()
      modifies this, source
      ensures source.Valid()
      ensures Abs() == Insert(old(Abs()), old(source.data[source.pos..]))
      ensures source.pos == if old(good) then |source.data| else old(source.pos)
    {
      if good {
        var rest := source.data[source.pos..];
        source.pos := |source.data|;
        text := text + rest;
        good := rest != "";
      }
    }
  }

  class InputStream {
    const data: string
    var pos: nat

    ghost predicate Valid()
      reads this
    {
      pos <= |data|
    }

    constructor (data: string)
      ensures Valid() && this.data == data && pos == 0
    {
      this.data, pos := data, 0;
    }
  }

  /** `HttpStringContent`, also for JSON. */
  class StringContent {
    const kind: string
    const str: string

    constructor (kind: string, str: string)
      ensures this.kind == kind && this.str == str
    {
      this.kind, this.str := kind, str;
    }

    method Save(ost: OutputStream)
      modifies ost
      ensures ost.Abs() == Write(old(ost.Abs()), str)
    {
      ost.Put(str);
    }
  }

  /** `HttpStreamContent`. */
  class StreamContent {
    const ist: InputStream

    constructor (ist: InputStream)
      ensures this.ist == ist
    {
      this.ist := ist;
    }

    method Save(ost: OutputStream)
      requires ist.Valid()
      modifies ost, ist
      ensures ist.Valid()
      ensures ost.Abs() == WriteStream(old(ost.Abs()), ist.data, old(ist.pos))
      ensures ist.pos == if old(ost.good) then |ist.data| else old(ist.pos)
    {
      ost.PutBuffer(ist);
    }

    /** Seeks to the end and back. */
    method GetLength() returns (result: nat)
      requires ist.Valid()
      modifies ist
      ensures ist.pos == old(ist.pos)
      ensures result == |ist.data|
    {
      var pos := ist.pos;
      ist.pos := |ist.data|;
      result := ist.pos;
      ist.pos := pos;
    }
  }

  class FormPart {
    const headers: string
    const content: InputStream
    const contentSize: nat

    function Value(): Part { Part(headers, content.data, contentSize) }

    static function ContentDisposition(name: string, filename: string): string {
      var result := "Content-Disposition: form-data; name=\"" + name + "\"";
      if filename == "" then result else result + "; filename=\"" + filename + "\""
    }

    constructor FromValue(key: string, value: string)
      ensures Value() == Part(ContentDisposition(key, ""), value, |value|)
      ensures fresh(content) && content.Valid()
    {
      headers := ContentDisposition(key, "");
      content := new InputStream(value);
      contentSize := |value|;
    }

    constructor FromFile(key: string, filename: string, content: InputStream, contentSize: nat, contentType: string)
      ensures Value() == Part(ContentDisposition(key, filename) + CRLF + CONTENT_TYPE + ": " + contentType,
                              content.data, contentSize)
      ensures this.content == content
    {
      this.headers := ContentDisposition(key, filename) + CRLF + CONTENT_TYPE + ": " + contentType;
      this.content := content;
      this.contentSize := contentSize;
    }

    method Save(ost: OutputStream)
      requires content.Valid()
      modifies ost, content
      ensures content.Valid()
      ensures ost.Abs() == Insert(Write(old(ost.Abs()), headers + BLANK_LINE), content.data)
    {
      content.pos := 0;
      ost.Put(headers + BLANK_LINE);
      ost.PutBuffer(content);
    }
  }

  lemma FileHeaders(key: string, filename: string, contentType: string)
    ensures FormPart.ContentDisposition(key, filename) + CRLF + CONTENT_TYPE + ": " + contentType
         == "Content-Disposition: form-data; name=\"" + key + "\""
            + (if filename == "" then "" else "; filename=\"" + filename + "\"")
            + "\r\nContent-Type: " + contentType
  {
    var disposition := FormPart.ContentDisposition(key, filename);
    assert disposition + CRLF + CONTENT_TYPE + ": " == disposition + "\r\nContent-Type: ";
    if filename == "" {
      assert disposition + "" == disposition;
    } else {
      assert disposition
          == "Content-Disposition: form-data; name=\"" + key + "\"" + ("; filename=\"" + filename + "\"");
    }
  }

  /** `HttpMultipartFormDataContentImpl`. */
  class MultipartContent {
    var parts: seq<FormPart>

    function Values(): seq<Part>
      reads this
    {
      seq(|parts|, i requires 0 <= i < |parts| reads this => parts[i].Value())
    }

    function Streams(): set<InputStream>
      reads this
    {
      set i | 0 <= i < |parts| :: parts[i].content
    }

    ghost predicate Valid()
      reads this, Streams()
    {
      forall s :: s in Streams() ==> s.Valid()
    }

    constructor ()
      ensures Valid() && Values() == []
    {
      parts := [];
    }

    method AddValue(key: string, value: string)
      requires Valid()
      modifies this
      ensures Valid()
      ensures Values() == old(Values())
        + [Part("Content-Disposition: form-data; name=\"" + key + "\"", value, |value|)]
    {
      var part := new FormPart.FromValue(key, value);
      ghost var was := Values();
      parts := parts + [part];
      assert Values() == was + [part.Value()];
    }

    method AddFile(key: string, filename: string, content: InputStream, contentSize: nat, contentType: string)
      requires Valid() && content.Valid()
      modifies this
      ensures Valid()
      ensures Values() == old(Values()) + [
        Part("Content-Disposition: form-data; name=\"" + key + "\""
             + (if filename == "" then "" else "; filename=\"" + filename + "\"")
             + "\r\nContent-Type: " + contentType,
             content.data, contentSize)]
    {
      var part := new FormPart.FromFile(key, filename, content, contentSize, contentType);
      ghost var was := Values();
      FileHeaders(key, filename, contentType);
      parts := parts + [part];
      assert Values() == was + [part.Value()];
    }

    /** What is written depends on what the streams hold only, not on where earlier calls have left
        them: every call writes the same. */
    method Save(ost: OutputStream)
      requires Valid()
      modifies ost, Streams()
      ensures Valid() && Values() == old(Values())
      ensures ost.Abs() == WriteBody(old(ost.Abs()), Values())
    {
      if parts == [] {
        return;
      }
      ghost var values := Values();
      ghost var whole := WriteParts(ost.Abs(), values);
      var i := 0;
      while i < |parts|
        invariant i <= |parts| && Valid() && Values() == values
        invariant WriteParts(ost.Abs(), values[i..]) == whole
      {
        ghost var before := ost.Abs();
        ost.Put("--" + BOUNDARY + CRLF);
        assert parts[i].content in Streams();
        parts[i].Save(ost);
        ost.Put(CRLF);
        WritePartByPieces(before, values[i]);
        i := i + 1;
      }
      ost.Put(CLOSING);
    }

    method GetLength() returns (result: nat)
      ensures result == DeclaredLength(Values())
    {
      if parts == [] {
        return 0;
      }
      ghost var values := Values();
      result := 0;
      var i := 0;
      while i < |parts|
        invariant i <= |parts|
        invariant result + PartLengths(values[i..]) == PartLengths(values)
      {
        result := result + |BOUNDARY| + 4 + (|parts[i].headers| + 4 + parts[i].contentSize) + 2;
        i := i + 1;
      }
      result := result + |BOUNDARY| + 6;
    }
  }

  lemma WritePartByPieces(o: Output, p: Part)
    ensures Write(Insert(Write(Write(o, "--" + BOUNDARY + CRLF), p.headers + BLANK_LINE), p.data), CRLF) ==
            WritePart(o, p)
  {
    assert o.text + ("--" + BOUNDARY + CRLF) + (p.headers + BLANK_LINE) == o.text + PartStart(p);
  }

  /** The content object that a request owns. */
  datatype ContentPtr =
    | StringPtr(str: StringContent)
    | StreamPtr(stream: StreamContent)
    | MultipartPtr(multipart: MultipartContent)

  /** The input streams that printing the content reads. */
  function StreamsOf(c: ContentPtr): set<InputStream>
    reads if c.MultipartPtr? then {c.multipart} else {}
  {
    match c
    case StringPtr(_) => {}
    case StreamPtr(stream) => {stream.ist}
    case MultipartPtr(multipart) => multipart.Streams()
  }

  ghost function Objects(c: ContentPtr): set<object>
    reads if c.MultipartPtr? then {c.multipart} else {}
  {
    StreamsOf(c) + if c.MultipartPtr? then {c.multipart} else {}
  }

  ghost predicate ValidContent(c: ContentPtr)
    reads Objects(c)
  {
    forall s :: s in StreamsOf(c) ==> s.Valid()
  }

  ghost function ContentValue(c: ContentPtr): Content
    reads Objects(c)
  {
    match c
    case StringPtr(str) => Text(str.kind, str.str)
    case StreamPtr(stream) => Stream(stream.ist.data, stream.ist.pos)
    case MultipartPtr(multipart) => Multipart(multipart.Values())
  }

  method SaveContent(c: ContentPtr, ost: OutputStream)
    requires ValidContent(c)
    modifies ost, StreamsOf(c)
    ensures ValidContent(c) && StreamsOf(c) == old(StreamsOf(c))
    ensures ost.Abs() == WriteContent(old(ost.Abs()), old(ContentValue(c)))
    ensures ContentValue(c) == if old(ost.good) then Spent(old(ContentValue(c))) else old(ContentValue(c))
  {
    match c
    case StringPtr(str) => str.Save(ost);
    case StreamPtr(stream) => stream.Save(ost);
    case MultipartPtr(multipart) => multipart.Save(ost);
  }

  method ContentLengthOf(c: ContentPtr) returns (n: nat)
    requires ValidContent(c)
    modifies StreamsOf(c)
    ensures ValidContent(c) && n == GetLength(ContentValue(c)) && ContentValue(c) == old(ContentValue(c))
    ensures StreamsOf(c) == old(StreamsOf(c))
  {
    match c
    case StringPtr(str) => n := |str.str|;
    case StreamPtr(stream) => n := stream.GetLength();
    case MultipartPtr(multipart) => n := multipart.GetLength();
  }

  method ContentKindOf(c: ContentPtr) returns (kind: string)
    ensures kind == KindOf(ContentValue(c))
  {
    match c
    case StringPtr(str) => kind := str.kind;
    case StreamPtr(_) => kind := "application/octet-stream";
    case MultipartPtr(_) => kind := "multipart/form-data; boundary=" + BOUNDARY;
  }

  /** The request object: headers and content change, the rest is fixed when it is created. */
  class HttpRequest {
    const verb: Method
    const path: string
    const params: Params
    var headers: Headers
    var content: Option<ContentPtr>

    ghost function Frame(): set<object>
      reads this, if content.Some? && content.value.MultipartPtr? then {content.value.multipart} else {}
    {
      if content.Some? then Objects(content.value) else {}
    }

    function Streams(): set<InputStream>
      reads this, if content.Some? && content.value.MultipartPtr? then {content.value.multipart} else {}
    {
      if content.Some? then StreamsOf(content.value) else {}
    }

    ghost predicate Valid()
      reads this, Frame()
    {
      content.Some? ==> ValidContent(content.value)
    }

    ghost function Abs(): RequestData
      reads this, Frame()
    {
      RequestData(verb, path, params, headers, if content.Some? then Some(ContentValue(content.value)) else None)
    }

    constructor (verb: Method, path: string, params: Params)
      ensures Valid() && Abs() == RequestData(verb, path, params, map[], None)
    {
      this.verb, this.path, this.params, headers, content := verb, path, params, map[], None;
    }

    method AddHeader(name: string, value: string)
      requires Valid()
      modifies `headers
      ensures Valid() && Abs() == old(Abs()).(headers := old(headers)[name := value])
    {
      headers := headers[name := value];
    }

    method SetContent(c: ContentPtr)
      requires ValidContent(c)
      modifies this, StreamsOf(c)
      ensures Valid() && content == Some(c)
      ensures Abs() == WithContent(old(Abs()), old(ContentValue(c)))
    {
      var length := ContentLengthOf(c);
      var kind := ContentKindOf(c);
      content := Some(c);
      headers := headers[CONTENT_LENGTH := PrintNat(length)];
      headers := headers[CONTENT_TYPE := kind];
    }

    method PrintTarget() returns (s: string)
      ensures s == Target(Abs())
    {
      s := path;
      if params != [] {
        s := s + "?" + ParamText(params[0]);
        ghost var whole := s + MoreParams(params[1..]);
        var i := 1;
        while i < |params|
          invariant 1 <= i <= |params|
          invariant s + MoreParams(params[i..]) == whole
        {
          var more := "&" + ParamText(params[i]);
          assert s + (more + MoreParams(params[i + 1..])) == s + more + MoreParams(params[i + 1..]);
          s := s + more;
          i := i + 1;
        }
      }
    }

    method PrintHeaders(order: seq<string>) returns (s: string)
      requires Visits(order, headers)
      ensures s == HeaderBlock(headers, order)
    {
      s := "";
      var i := 0;
      while i < |order|
        invariant i <= |order|
        invariant s + HeaderBlock(headers, order[i..]) == HeaderBlock(headers, order)
      {
        var line := HeaderLine(order[i], headers[order[i]]);
        assert s + (line + HeaderBlock(headers, order[i + 1..])) == s + line + HeaderBlock(headers, order[i + 1..]);
        s := s + line;
        i := i + 1;
      }
      s := s + CRLF;
    }

    /** `operator<<`. */
    method Print(ost: OutputStream, order: seq<string>)
      requires Valid() && Visits(order, headers)
      modifies ost, Streams()
      ensures Valid() && Streams() == old(Streams())
      ensures ost.Abs() == WriteRequest(old(ost.Abs()), old(Abs()), order)
      ensures Abs() == if old(ost.good) then Printed(old(Abs())) else old(Abs())
    {
      var target := PrintTarget();
      var block := PrintHeaders(order);
      ost.Put(VerbText(verb) + " " + target + " HTTP/1.1" + CRLF + block);
      if content.Some? {
        SaveContent(content.value, ost);
      }
    }
  }

  /** `SendRequest`: the request goes to the log, then to the write buffer of the session. */
  method SendRequest(request: HttpRequest, order: seq<string>) returns (log: OutputStream, ost: OutputStream)
    requires request.Valid() && Visits(order, request.headers)
    modifies request.Streams()
    ensures request.Valid() && request.Streams() == old(request.Streams())
    ensures fresh(log) && fresh(ost)
    ensures Sent(log.Abs(), ost.Abs()) == Attempt(old(request.Abs()), order)
    ensures request.Abs() == Printed(Printed(old(request.Abs())))
  {
    hide WriteRequest, HeaderBlock;
    log := new OutputStream();
    request.Print(log, order);
    ost := new OutputStream();
    request.Print(ost, order);
  }

  /** An attempt that fails, and the retry with the request object moved over: what reaches the log
      and the connection is the same both times, unless the content is a stream with something left
      to read. */
  method SendAndRetry(request: HttpRequest, order: seq<string>)
    returns (log: OutputStream, ost: OutputStream, retryLog: OutputStream, retryOst: OutputStream)
    requires request.Valid() && Visits(order, request.headers)
    modifies request.Streams()
    ensures var all := old(WriteRequest(EMPTY, request.Abs(), order));
      !old(Unread(request.Abs())) ==>
        log.Abs() == all && ost.Abs() == all && retryLog.Abs() == all && retryOst.Abs() == all
    ensures old(Unread(request.Abs())) ==>
      var head := Output(old(HeadText(request.Abs(), order)), false);
      ost.Abs() == head && retryLog.Abs() == head && retryOst.Abs() == head
  {
    hide WriteRequest, HeadText;
    ghost var r := request.Abs();
    log, ost := SendRequest(request, order);
    retryLog, retryOst := SendRequest(request, order);
    SpentOnce(r, 0);
    SpentOnce(Printed(r), 0);
    if Unread(r) {
      StreamPrints(r, order);
    } else {
      assert Printed(r) == r;
    }
  }
}

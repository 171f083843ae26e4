/** What a server reads out of a printed request: its method, path and parameters, and the parts of
    a multipart body (src/Networking/Http/HttpRequest.cpp, src/Networking/Http/HttpContent.cpp). */
module RequestReader {
  import opened Options
  import opened Texts
  import opened HttpMessage
  import opened HttpContent

  // Finding a delimiter

  /** The first place from i on where t stands; the length of s when there is none. */
  function Find(s: string, t: string, i: nat): (r: nat)
    requires i <= |s|
    ensures i <= r <= |s|
    ensures r < |s| ==> At(s, r, t)
    decreases |s| - i
  {
    if i == |s| || At(s, i, t) then i else Find(s, t, i + 1)
  }

  lemma {:induction false} FindAt(s: string, t: string, i: nat, j: nat)
    requires i <= j <= |s| && (j == |s| || At(s, j, t)) && forall k :: i <= k < j ==> !At(s, k, t)
    ensures Find(s, t, i) == j
    decreases j - i
  {
    if i < j {
      FindAt(s, t, i + 1, j);
    }
  }

  predicate Lacks(s: string, c: char) { c !in s }

  lemma FindCharAt(s: string, c: char, i: nat, a: string)
    requires At(s, i, a) && Lacks(a, c)
    requires i + |a| == |s| || s[i + |a|] == c
    ensures Find(s, [c], i) == i + |a|
  {
    forall k | i <= k < i + |a| ensures !At(s, k, [c]) {
      AtChar(s, i, a, k - i);
      if At(s, k, [c]) {
        AtChar(s, k, [c], 0);
      }
    }
    var j := i + |a|;
    if j < |s| {
      assert s[j..j + 1] == [c];
    }
    FindAt(s, [c], i, j);
  }

  // The request line

  function ReadVerb(word: string): Option<Method> {
    if word == "GET" then Some(Get)
    else if word == "POST" then Some(Post)
    else if word == "PUT" then Some(Put)
    else if word == "DELETE" then Some(Delete)
    else None
  }

  /** `name=value` */
  function ReadParam(t: string): (string, string) {
    var k := Find(t, "=", 0);
    if k == |t| then (t, "") else (t[..k], t[k + 1..])
  }

  /** Parameters with `&` between each two. */
  function ReadParams(t: string, i: nat): Params
    requires i <= |t|
    decreases |t| - i
  {
    var k := Find(t, "&", i);
    if k == |t| then [ReadParam(t[i..])] else [ReadParam(t[i..k])] + ReadParams(t, k + 1)
  }

  /** The parameters stand behind the first question mark of the target. */
  function ReadTarget(t: string): (string, Params) {
    var k := Find(t, "?", 0);
    if k == |t| then (t, []) else (t[..k], ReadParams(t, k + 1))
  }

  datatype Line = Line(verb: Method, path: string, params: Params)

  /** Section 3.1.1 of RFC 7230: method, target and version with one blank between each two. */
  function ReadLine(s: string): Option<Line> {
    var a := Find(s, " ", 0);
    if a == |s| then None else
    var b := Find(s, " ", a + 1);
    var verb := ReadVerb(s[..a]);
    if verb.None? || s[b..] != " HTTP/1.1\r\n" then None
    else
      var t := ReadTarget(s[a + 1..b]);
      Some(Line(verb.value, t.0, t.1))
  }

  /** Nothing in path and parameters can be taken for a delimiter: the client does not escape them. */
  predicate Unambiguous(r: RequestData) {
    && Lacks(r.path, ' ') && Lacks(r.path, '?')
    && forall i :: 0 <= i < |r.params| ==> PlainParam(r.params[i])
  }

  predicate PlainParam(p: (string, string)) {
    && Lacks(p.0, ' ') && Lacks(p.0, '&') && Lacks(p.0, '=')
    && Lacks(p.1, ' ') && Lacks(p.1, '&')
  }

  lemma ParamRead(p: (string, string))
    requires PlainParam(p)
    ensures ReadParam(ParamText(p)) == p && Lacks(ParamText(p), '&') && Lacks(ParamText(p), ' ')
  {
    var t := ParamText(p);
    assert t[0..0 + |p.0|] == p.0;
    FindCharAt(t, '=', 0, p.0);
    assert t[..|p.0|] == p.0 && t[|p.0| + 1..] == p.1;
  }

  /** The parameters from the first on, without the question mark. */
  function ParamsText(params: Params): string
    requires params != []
  {
    ParamText(params[0]) + MoreParams(params[1..])
  }

  lemma {:induction false} ParamsRead(s: string, i: nat, params: Params)
    requires params != [] && forall k :: 0 <= k < |params| ==> PlainParam(params[k])
    requires i <= |s| && s[i..] == ParamsText(params)
    ensures ReadParams(s, i) == params && Lacks(ParamsText(params), ' ')
    decreases |params|
  {
    hide ParamText, PlainParam, Lacks, ReadParam, At;
    var first, rest := ParamText(params[0]), params[1..];
    ParamRead(params[0]);
    var tail := MoreParams(rest);
    Cut(s, i, first, tail);
    FirstParamEnds(s, i, params[0], tail);
    if rest == [] {
      assert params == [params[0]] && first + "" == first;
      assert s[i..i + |first|] == s[i..];
    } else {
      MoreIsOneParam(rest);
      ParamsRead(s, i + |first| + 1, rest);
      LacksJoin(first, ParamsText(rest));
      assert params == [params[0]] + rest;
    }
  }

  lemma MoreIsOneParam(params: Params)
    requires params != []
    ensures var tail := MoreParams(params); tail == "&" + ParamsText(params) && tail[1..] == ParamsText(params)
  {
    assert "&" + ParamText(params[0]) + MoreParams(params[1..]) == "&" + ParamsText(params);
  }

  lemma LacksJoin(a: string, b: string)
    requires Lacks(a, ' ') && Lacks(b, ' ')
    ensures Lacks(a + ("&" + b), ' ')
    ensures Lacks(a + "", ' ')
  {
  }

  lemma FirstParamEnds(s: string, i: nat, p: (string, string), tail: string)
    requires PlainParam(p) && i <= |s| && s[i..] == ParamText(p) + tail && (tail != "" ==> tail[0] == '&')
    ensures Find(s, "&", i) == i + |ParamText(p)|
  {
    ParamRead(p);
    Cut(s, i, ParamText(p), tail);
    FindCharAt(s, '&', i, ParamText(p));
  }

  lemma TargetRead(r: RequestData)
    requires Unambiguous(r)
    ensures ReadTarget(Target(r)) == (r.path, r.params) && Lacks(Target(r), ' ')
  {
    var t := Target(r);
    assert t[0..0 + |r.path|] == r.path;
    if r.params == [] {
      FindCharAt(t, '?', 0, r.path);
    } else {
      assert t == r.path + ("?" + ParamsText(r.params));
      assert t[|r.path|] == '?' && t[|r.path| + 1..] == ParamsText(r.params);
      FindCharAt(t, '?', 0, r.path);
      ParamsRead(t, |r.path| + 1, r.params);
      assert t[..|r.path|] == r.path;
    }
  }

  lemma VerbRead(verb: Method)
    ensures ReadVerb(VerbText(verb)) == Some(verb) && Lacks(VerbText(verb), ' ')
  {
  }

  /** The request line gives back method, path and all parameters in their order. */
  lemma LineIsRead(r: RequestData)
    requires Unambiguous(r)
    ensures ReadLine(RequestLine(r)) == Some(Line(r.verb, r.path, r.params))
  {
    hide Target, VerbText, ReadVerb, ReadTarget;
    var s, verb, target := RequestLine(r), VerbText(r.verb), Target(r);
    VerbRead(r.verb);
    TargetRead(r);
    var a := |verb|;
    var b := a + 1 + |target|;
    var end := " HTTP/1.1\r\n";
    assert s == verb + " " + target + end;
    assert At(s, 0, verb) by { assert s[0..a] == verb; }
    FindCharAt(s, ' ', 0, verb);
    assert At(s, a + 1, target) by { assert s[a + 1..b] == target; }
    assert s[b] == end[0];
    FindCharAt(s, ' ', a + 1, target);
    assert s[..a] == verb && s[a + 1..b] == target && s[b..] == end;
  }

  lemma {:induction false} FoundFirst(s: string, c: char, i: nat)
    requires i <= |s|
    ensures Lacks(s[i..Find(s, [c], i)], c)
    decreases |s| - i
  {
    var j := Find(s, [c], i);
    if i < j {
      assert s[i..i + 1] == [s[i]];
      FoundFirst(s, c, i + 1);
      assert s[i..j] == [s[i]] + s[i + 1..j];
    }
  }

  /** What a parameter reads as determines its text, unless it lacks the equals sign. */
  lemma ParamDetermines(t: string, p: (string, string))
    requires ReadParam(t) == p
    ensures Lacks(p.0, '=') && (t == ParamText(p) || (t == p.0 && p.1 == ""))
  {
    var k := Find(t, "=", 0);
    FoundFirst(t, '=', 0);
    assert t[0..k] == t[..k] && t[..|t|] == t;
    if k < |t| {
      AtChar(t, k, "=", 0);
      assert t == t[..k] + "=" + t[k + 1..];
    }
  }

  lemma {:induction false} ParamsDetermine(s: string, i: nat, params: Params)
    requires params != [] && i <= |s| && s[i..] == ParamsText(params) && Lacks(s[i..], ' ')
    requires ReadParams(s, i) == params
    ensures forall k :: 0 <= k < |params| ==> PlainParam(params[k])
    decreases |params|
  {
    hide PlainParam, Find, ReadParam;
    var p, rest := params[0], params[1..];
    var k := Find(s, "&", i);
    var piece := s[i..k];
    var tail := MoreParams(rest);
    FoundFirst(s, '&', i);
    assert s[i..|s|] == s[i..];
    assert ReadParam(piece) == p;
    ParamDetermines(piece, p);
    Cut(s, i, ParamText(p), tail);
    FirstPiece(s, i, k, p, tail);
    FirstIsPlain(s, i, k, p);
    if k < |s| {
      MoreIsOneParam(rest);
      assert s[k + 1..] == tail[1..];
      LacksLater(s, i, k + 1);
      ParamsDetermine(s, k + 1, rest);
      assert params == [p] + rest;
    } else {
      assert params == [p];
    }
  }

  lemma LacksLater(s: string, i: nat, j: nat)
    requires i <= j <= |s| && Lacks(s[i..], ' ')
    ensures Lacks(s[j..], ' ')
  {
    assert s[j..] == s[i..][j - i..];
  }

  /** The first piece is the text of the first parameter. */
  lemma FirstPiece(s: string, i: nat, k: nat, p: (string, string), tail: string)
    requires i <= k <= |s| && s[i..] == ParamText(p) + tail && (k < |s| ==> s[k] == '&')
    requires s[i..k] == ParamText(p) || (s[i..k] == p.0 && p.1 == "")
    ensures s[i..k] == ParamText(p) && k == i + |ParamText(p)|
  {
    assert s[i + |p.0|] == s[i..][|p.0|] == '=';
  }

  lemma FirstIsPlain(s: string, i: nat, k: nat, p: (string, string))
    requires i <= k <= |s| && s[i..k] == ParamText(p) && Lacks(s[i..k], '&') && Lacks(s[i..], ' ') && Lacks(p.0, '=')
    ensures PlainParam(p)
  {
    assert s[i..k] == s[i..][..k - i];
    PartLacks(p.0, "=", p.1, '&');
    PartLacks(p.0, "=", p.1, ' ');
  }

  lemma PartLacks(a: string, b: string, c: string, d: char)
    requires Lacks(a + b + c, d)
    ensures Lacks(a, d) && Lacks(c, d)
  {
    assert forall x :: x in a || x in c ==> x in a + b + c;
  }

  lemma TargetDetermines(r: RequestData)
    requires ReadTarget(Target(r)) == (r.path, r.params) && Lacks(Target(r), ' ')
    ensures Unambiguous(r)
  {
    hide ReadParams, PlainParam;
    var t := Target(r);
    var k := Find(t, "?", 0);
    FoundFirst(t, '?', 0);
    assert t[0..k] == t[..k] && t[..|t|] == t;
    if r.params == [] {
      assert k == |t|;
    } else {
      assert t == r.path + ("?" + ParamsText(r.params));
      assert k < |t| && r.path == t[..k] && t[k + 1..] == ParamsText(r.params);
      PartLacks(r.path, "?", ParamsText(r.params), ' ');
      ParamsDetermine(t, k + 1, r.params);
    }
  }

  /** A server that reads the request line finds method, path and all parameters in their order exactly
      when nothing in them can be taken for a delimiter. */
  lemma LineIsReadExactly(r: RequestData)
    ensures ReadLine(RequestLine(r)) == Some(Line(r.verb, r.path, r.params)) <==> Unambiguous(r)
  {
    hide Target, VerbText, ReadVerb, ReadTarget, Unambiguous, Find;
    if Unambiguous(r) {
      LineIsRead(r);
    }
    if ReadLine(RequestLine(r)) == Some(Line(r.verb, r.path, r.params)) {
      var s, verb, target, end := RequestLine(r), VerbText(r.verb), Target(r), " HTTP/1.1\r\n";
      assert s == verb + " " + target + end;
      VerbRead(r.verb);
      assert At(s, 0, verb) by { assert s[0..|verb|] == verb; }
      FindCharAt(s, ' ', 0, verb);
      var a := |verb|;
      var b := Find(s, " ", a + 1);
      assert |s[b..]| == |end|;
      assert s[a + 1..b] == target;
      FoundFirst(s, ' ', a + 1);
      TargetDetermines(r);
    }
  }

  /** The header block after the line gives back every header, as far as its value survives. */
  lemma HeadIsRead(r: RequestData, order: seq<string>)
    requires Visits(order, r.headers)
    requires forall name :: name in r.headers ==>
      NoReturn(name) && NoColon(name) && NoReturn(r.headers[name])
    ensures ReadHeaders(HeadText(r, order), |RequestLine(r)|, map[])
         == Good(ReadBackAll(r.headers), |HeadText(r, order)|)
  {
    hide RequestLine, HeaderBlock, ReadHeaders;
    var text, block := HeadText(r, order), HeaderBlock(r.headers, order);
    assert At(text, |RequestLine(r)|, block) by {
      assert text[|RequestLine(r)|..|RequestLine(r)| + |block|] == block;
    }
    HeadersRead(text, |RequestLine(r)|, r.headers, order, map[]);
    AddAllVisited(r.headers, order);
  }

  // Multipart bodies

  /** Section 5.1.1 of RFC 2046: parts behind a line with two dashes and the boundary; each ends at the
      next line break with two dashes and the boundary; two more dashes end the body. */
  function ReadParts(boundary: string, s: string, i: nat): Option<seq<(string, string)>>
    requires i <= |s|
    decreases |s| - i
  {
    if s[i..] == "--" + boundary + "--\r\n" then Some([])
    else if !At(s, i, "--" + boundary + "\r\n") then None
    else
      var h := i + |boundary| + 4;
      var e := Find(s, "\r\n\r\n", h);
      if e == |s| then None else
      var d := e + 4;
      var f := Find(s, "\r\n--" + boundary, d);
      if f == |s| then None else
      var rest := ReadParts(boundary, s, f + 2);
      if rest.None? then None else Some([(s[h..e], s[d..f])] + rest.value)
  }

  function ReadBody(boundary: string, s: string): Option<seq<(string, string)>> {
    if s == "" then Some([]) else ReadParts(boundary, s, 0)
  }

  /** The text ends where its delimiter first occurs. */
  predicate EndsAt(text: string, delimiter: string) { Find(text + delimiter, delimiter, 0) == |text| }

  /** No blank line in the headers, and no line of the data that begins like a delimiter. */
  predicate Delimited(boundary: string, p: Part) {
    EndsAt(p.headers, "\r\n\r\n") && EndsAt(p.data, "\r\n--" + boundary)
  }

  predicate AllDelimited(boundary: string, parts: seq<Part>) {
    forall i :: 0 <= i < |parts| ==> Delimited(boundary, parts[i])
  }

  function Fields(parts: seq<Part>): (r: seq<(string, string)>)
    ensures |r| == |parts|
  {
    seq(|parts|, i requires 0 <= i < |parts| => (parts[i].headers, parts[i].data))
  }

  lemma SameAt(s: string, i: nat, a: string, t: string, rest: string, k: nat)
    requires i <= |s| && s[i..] == a + t + rest && k <= |a|
    ensures At(s, i + k, t) <==> At(a + t, k, t)
  {
    assert (a + t)[k..k + |t|] == s[i..][k..k + |t|] == s[i + k..i + k + |t|];
  }

  lemma EndIsAt(a: string, t: string)
    ensures At(a + t, |a|, t)
  {
    assert (a + t)[|a|..|a| + |t|] == t;
  }

  lemma {:induction false} FindWithin(s: string, i: nat, a: string, t: string, rest: string, k: nat)
    requires i <= |s| && s[i..] == a + t + rest && k <= |a| && t != ""
    ensures Find(s, t, i + k) == i + Find(a + t, t, k) <= i + |a|
    decreases |a| - k
  {
    hide At;
    SameAt(s, i, a, t, rest, k);
    if k == |a| {
      EndIsAt(a, t);
    } else if !At(a + t, k, t) {
      FindWithin(s, i, a, t, rest, k + 1);
    }
  }

  function BodyText(boundary: string, parts: seq<Part>): string {
    if parts == [] then "--" + boundary + "--\r\n"
    else
      "--" + boundary + "\r\n" + parts[0].headers + "\r\n\r\n" + parts[0].data + "\r\n"
      + BodyText(boundary, parts[1..])
  }

  lemma {:induction false} BodyIsText(parts: seq<Part>)
    ensures PartTexts(parts) + CLOSING == BodyText(BOUNDARY, parts)
  {
    if parts == [] {
      assert "" + CLOSING == CLOSING;
    } else {
      BodyIsText(parts[1..]);
      var p := parts[0];
      calc {
        PartTexts(parts) + CLOSING;
        PartStart(p) + p.data + CRLF + PartTexts(parts[1..]) + CLOSING;
        PartStart(p) + p.data + CRLF + (PartTexts(parts[1..]) + CLOSING);
        PartStart(p) + p.data + CRLF + BodyText(BOUNDARY, parts[1..]);
      }
    }
  }

  lemma BodyStarts(boundary: string, parts: seq<Part>) returns (rest: string)
    ensures BodyText(boundary, parts) == "--" + boundary + rest
    ensures |rest| >= 2 && (parts != [] ==> rest[0] == '\r')
  {
    if parts == [] {
      rest := "--\r\n";
    } else {
      rest := "\r\n" + parts[0].headers + "\r\n\r\n" + parts[0].data + "\r\n" + BodyText(boundary, parts[1..]);
    }
  }

  lemma Drop(s: string, i: nat, a: string, b: string)
    requires i <= |s| && s[i..] == a + b
    ensures i + |a| <= |s| && s[i..i + |a|] == a && s[i + |a|..] == b
  {
    assert s[i..i + |a|] == s[i..][..|a|];
    assert s[i + |a|..] == s[i..][|a|..];
  }

  lemma OpeningAt(boundary: string, s: string, i: nat, rest: string)
    requires i <= |s| && s[i..] == "--" + boundary + "\r\n" + rest
    ensures At(s, i, "--" + boundary + "\r\n") && i + |boundary| + 4 <= |s|
    ensures s[i..] != "--" + boundary + "--\r\n" && s[i + |boundary| + 4..] == rest
  {
    Drop(s, i, "--" + boundary + "\r\n", rest);
    assert s[i..][|boundary| + 2] == '\r';
  }

  /** A piece and its delimiter: the delimiter is found at the end of the piece, or before. */
  lemma PieceAt(s: string, i: nat, piece: string, delimiter: string, rest: string)
    requires i <= |s| && s[i..] == piece + delimiter + rest && delimiter != ""
    ensures i + |piece| + |delimiter| <= |s| && s[i..i + |piece|] == piece
    ensures s[i + |piece| + |delimiter|..] == rest && s[i + |piece|..] == delimiter + rest
    ensures Find(s, delimiter, i) <= i + |piece|
    ensures Find(s, delimiter, i) == i + |piece| <==> EndsAt(piece, delimiter)
  {
    hide Find;
    FindWithin(s, i, piece, delimiter, rest, 0);
    assert piece + delimiter + rest == piece + (delimiter + rest);
    Drop(s, i, piece, delimiter + rest);
    Drop(s, i + |piece|, delimiter, rest);
  }

  /** Where the reader finds the ends of the first part's headers and data. */
  lemma FirstPart(boundary: string, s: string, i: nat, parts: seq<Part>) returns (e: nat, f: nat)
    requires parts != [] && i <= |s| && s[i..] == BodyText(boundary, parts)
    ensures var p := parts[0];
      var h := i + |boundary| + 4;
      && At(s, i, "--" + boundary + "\r\n") && s[i..] != "--" + boundary + "--\r\n"
      && h <= e && e + 4 <= |s| && e == Find(s, "\r\n\r\n", h) && f == Find(s, "\r\n--" + boundary, e + 4)
      && (e == h + |p.headers| <==> EndsAt(p.headers, "\r\n\r\n"))
      && (e == h + |p.headers| ==>
            && s[h..e] == p.headers && f + 2 <= |s|
            && (f == e + 4 + |p.data| <==> EndsAt(p.data, "\r\n--" + boundary))
            && (f == e + 4 + |p.data| ==> s[e + 4..f] == p.data && s[f + 2..] == BodyText(boundary, parts[1..])))
  {
    hide Find, EndsAt, At, BodyText;
    var p, next := parts[0], BodyText(boundary, parts[1..]);
    var more := BodyStarts(boundary, parts[1..]);
    var blank, delimiter := "\r\n\r\n", "\r\n--" + boundary;
    BodyPieces(boundary, parts, more);
    OpeningAt(boundary, s, i, p.headers + blank + (p.data + delimiter + more));
    var h := i + |boundary| + 4;
    PieceAt(s, h, p.headers, blank, p.data + delimiter + more);
    e := Find(s, blank, h);
    f := Find(s, delimiter, e + 4);
    PieceAt(s, h + |p.headers| + 4, p.data, delimiter, more);
    NextPart(boundary, s, h + |p.headers| + 4 + |p.data|, next, more);
  }

  lemma NextPart(boundary: string, s: string, n: nat, next: string, more: string)
    requires n <= |s| && s[n..] == "\r\n--" + boundary + more && next == "--" + boundary + more
    ensures n + 2 <= |s| && s[n + 2..] == next
  {
    assert "\r\n--" + boundary + more == "\r\n" + next;
    Drop(s, n, "\r\n", next);
  }

  lemma {:induction false} PartsReadExactly(boundary: string, s: string, i: nat, parts: seq<Part>)
    requires i <= |s| && s[i..] == BodyText(boundary, parts)
    ensures ReadParts(boundary, s, i) == Some(Fields(parts)) <==> AllDelimited(boundary, parts)
    decreases |parts|
  {
    hide Find, EndsAt, At, BodyText, Fields, ReadParts, AllDelimited;
    if parts == [] {
      NoParts(boundary);
      NothingRead(boundary, s, i);
    } else {
      var p := parts[0];
      var h := i + |boundary| + 4;
      var e, f := FirstPart(boundary, s, i, parts);
      FirstField(boundary, parts);
      ReadsFirst(boundary, s, i, e, f);
      var read := ReadParts(boundary, s, i);
      if e == h + |p.headers| && f == e + 4 + |p.data| {
        PartsReadExactly(boundary, s, f + 2, parts[1..]);
        assert read.Some? && read == Some(Fields(parts)) ==> read.value[1..] == Fields(parts)[1..];
      } else if read.Some? {
        assert |read.value[0].0| == e - h && |read.value[0].1| == f - e - 4;
      }
    }
  }

  lemma NothingRead(boundary: string, s: string, i: nat)
    requires i <= |s| && s[i..] == "--" + boundary + "--\r\n"
    ensures ReadParts(boundary, s, i) == Some([]) && AllDelimited(boundary, [])
  {
  }

  lemma ReadsFirst(boundary: string, s: string, i: nat, e: nat, f: nat)
    requires i <= |s| && At(s, i, "--" + boundary + "\r\n") && i + |boundary| + 4 <= |s|
    requires s[i..] != "--" + boundary + "--\r\n"
    requires e == Find(s, "\r\n\r\n", i + |boundary| + 4) && e + 4 <= |s|
    requires f == Find(s, "\r\n--" + boundary, e + 4)
    ensures f == |s| ==> ReadParts(boundary, s, i).None?
    ensures f < |s| ==>
      && f + 2 <= |s|
      && var rest := ReadParts(boundary, s, f + 2);
        ReadParts(boundary, s, i)
          == if rest.None? then None else Some([(s[i + |boundary| + 4..e], s[e + 4..f])] + rest.value)
  {
    hide Find, At;
    FoundFits(s, "\r\n--" + boundary, e + 4);
  }

  lemma FoundFits(s: string, t: string, i: nat)
    requires i <= |s|
    ensures Find(s, t, i) < |s| ==> Find(s, t, i) + |t| <= |s|
  {
    hide Find;
  }

  lemma NoParts(boundary: string)
    ensures BodyText(boundary, []) == "--" + boundary + "--\r\n" && Fields([]) == []
  {
  }

  lemma RegroupBody(open: string, headers: string, blank: string, data: string, end: string, dashes: string,
                    more: string)
    ensures open + headers + blank + data + end + (dashes + more)
         == open + (headers + blank + (data + (end + dashes) + more))
  {
  }

  lemma BodyPieces(boundary: string, parts: seq<Part>, more: string)
    requires parts != [] && BodyText(boundary, parts[1..]) == "--" + boundary + more
    ensures BodyText(boundary, parts)
         == "--" + boundary + "\r\n"
          + (parts[0].headers + "\r\n\r\n" + (parts[0].data + ("\r\n--" + boundary) + more))
  {
    var p, end, dashes := parts[0], "\r\n", "--" + boundary;
    RegroupBody(dashes + end, p.headers, "\r\n\r\n", p.data, end, dashes, more);
    assert end + dashes == "\r\n--" + boundary;
  }

  lemma FirstField(boundary: string, parts: seq<Part>)
    requires parts != []
    ensures Fields(parts) == [(parts[0].headers, parts[0].data)] + Fields(parts[1..])
    ensures AllDelimited(boundary, parts) <==> Delimited(boundary, parts[0]) && AllDelimited(boundary, parts[1..])
  {
    hide Delimited;
    assert parts == [parts[0]] + parts[1..];
  }

  /** A server finds the parts of a multipart body, with their headers and data, exactly when no part
      has a blank line in its headers or, in its data, a line that begins with two dashes and the
      boundary: the boundary is fixed, so this depends on what is uploaded. */
  lemma BodyIsReadExactly(parts: seq<Part>)
    ensures ReadBody(BOUNDARY, Body(parts)) == Some(Fields(parts)) <==> AllDelimited(BOUNDARY, parts)
  {
    hide ReadParts, BodyText;
    if parts != [] {
      BodyIsText(parts);
      assert Body(parts)[0..] == BodyText(BOUNDARY, parts);
      PartsReadExactly(BOUNDARY, Body(parts), 0, parts);
      assert Body(parts) != "";
    }
  }

  // Multipart requests

  /** The parameter of the content type. */
  function ReadBoundary(contentType: string): string {
    var k := Find(contentType, "boundary=", 0);
    if k + 9 > |contentType| then "" else contentType[k + 9..]
  }

  lemma BoundaryIsRead(parts: seq<Part>)
    ensures ReadBoundary(KindOf(Multipart(parts))) == BOUNDARY
  {
    var front := "multipart/form-data; ";
    var t := front + ("boundary=" + BOUNDARY);
    assert KindOf(Multipart(parts)) == t;
    forall k | 0 <= k < |front| ensures !At(t, k, "boundary=") {
      if At(t, k, "boundary=") {
        AtChar(t, k, "boundary=", 0);
        assert false;
      }
    }
    assert t[|front|..|front| + 9] == "boundary=";
    FindAt(t, "boundary=", 0, |front|);
    assert t[|front| + 9..] == BOUNDARY;
  }

  lemma {:induction false} ReadEndsClosed(boundary: string, s: string, i: nat)
    requires i <= |s| && ReadParts(boundary, s, i).Some?
    ensures |s| >= 3 && s[|s| - 3] == '-'
    decreases |s| - i
  {
    hide Find;
    if s[i..] == "--" + boundary + "--\r\n" {
      assert s[i..][|boundary| + 3] == '-';
    } else {
      var e := Find(s, "\r\n\r\n", i + |boundary| + 4);
      ReadEndsClosed(boundary, s, Find(s, "\r\n--" + boundary, e + 4) + 2);
    }
  }

  lemma CutBodyIsNotRead(parts: seq<Part>)
    requires !NoneEmpty(parts)
    ensures ReadBody(BOUNDARY, WriteBody(EMPTY, parts).text).None?
  {
    hide ReadParts, PartTexts, WriteBody;
    var i := FirstEmpty(parts);
    var before, empty, after := parts[..i], parts[i], parts[i + 1..];
    assert parts == before + [empty] + after;
    EmptyPartCutsBody(EMPTY, before, empty, after);
    var cut := "" + PartTexts(before) + PartStart(empty);
    assert cut[|cut| - 3] == BLANK_LINE[1];
    if ReadBody(BOUNDARY, cut).Some? {
      ReadEndsClosed(BOUNDARY, cut, 0);
    }
  }

  /** What the server finds behind the head of a printed multipart request, with the boundary taken
      from its content type, are the parts exactly when none is empty and none holds the delimiter. */
  lemma UploadArrivesExactly(r: RequestData, parts: seq<Part>, order: seq<string>)
    requires Visits(order, WithContent(r, Multipart(parts)).headers)
    ensures var sent := WithContent(r, Multipart(parts));
      var text := WriteRequest(EMPTY, sent, order).text;
      && CONTENT_TYPE in sent.headers && |HeadText(sent, order)| <= |text|
      && (ReadBody(ReadBoundary(sent.headers[CONTENT_TYPE]), text[|HeadText(sent, order)|..]) == Some(Fields(parts))
          <==> NoneEmpty(parts) && AllDelimited(BOUNDARY, parts))
  {
    hide ReadBody, AllDelimited, NoneEmpty, Fields, HeadText, WriteBody, KindOf, ReadBoundary;
    var sent := WithContent(r, Multipart(parts));
    BoundaryIsRead(parts);
    PrintsParts(r, parts, order);
    if NoneEmpty(parts) {
      BodyIsReadExactly(parts);
      WritesBody(EMPTY, parts);
      assert "" + Body(parts) == Body(parts);
    } else {
      CutBodyIsNotRead(parts);
    }
  }

  lemma PrintsParts(r: RequestData, parts: seq<Part>, order: seq<string>)
    requires Visits(order, WithContent(r, Multipart(parts)).headers)
    ensures var sent := WithContent(r, Multipart(parts));
      WriteRequest(EMPTY, sent, order).text == HeadText(sent, order) + WriteBody(EMPTY, parts).text
  {
    hide RequestLine, HeaderBlock, WriteParts, KindOf;
    var sent := WithContent(r, Multipart(parts));
    var head := HeadText(sent, order);
    assert "" + head == head;
    WritesBehind(head, parts);
  }

  lemma WritesBehind(head: string, parts: seq<Part>)
    ensures WriteBody(Output(head, true), parts).text == head + WriteBody(EMPTY, parts).text
  {
    hide WriteParts, CLOSING;
    if parts == [] {
      assert head + "" == head;
    } else {
      PartsBehind(head, "", parts);
      assert head + "" == head;
      assert head + WriteParts(EMPTY, parts).text + CLOSING == head + (WriteParts(EMPTY, parts).text + CLOSING);
    }
  }

  lemma {:induction false} PartsBehind(head: string, t: string, parts: seq<Part>)
    ensures WriteParts(Output(head + t, true), parts).text == head + WriteParts(Output(t, true), parts).text
    ensures WriteParts(Output(head + t, true), parts).good == WriteParts(Output(t, true), parts).good
    decreases |parts|
  {
    if parts != [] {
      var p := parts[0];
      PartBehind(head, t, p);
      if p.data == "" {
        FailedStaysFailed(WritePart(Output(head + t, true), p), parts[1..]);
        FailedStaysFailed(WritePart(Output(t, true), p), parts[1..]);
      } else {
        PartsBehind(head, WritePart(Output(t, true), p).text, parts[1..]);
      }
    }
  }

  lemma PartBehind(head: string, t: string, p: Part)
    ensures WritePart(Output(head + t, true), p)
         == Output(head + WritePart(Output(t, true), p).text, p.data != "")
    ensures WritePart(Output(t, true), p).good == (p.data != "")
  {
    var start := PartStart(p);
    assert head + t + start == head + (t + start);
    assert head + (t + start) + p.data == head + (t + start + p.data);
    assert head + (t + start + p.data) + CRLF == head + (t + start + p.data + CRLF);
  }
}

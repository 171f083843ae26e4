/** Reading a printed response back from a connection that delivers it in arbitrary pieces. */
module ResponseReader {
  import opened Texts
  import opened HttpMessage
  import opened Options

  // The reader at every point of a printed response

  function Head0(r: Response): Response { Response(r.version, r.status, r.message, map[], "") }

  function Head(r: Response): Response { Head0(r).(headers := ReadBackAll(r.headers)) }

  /** The response as it is read back: its header values may have lost characters. */
  function AsRead(r: Response): Response { r.(headers := ReadBackAll(r.headers)) }

  /** The declared length as the client reads it. */
  function Known(r: Response): Option<nat> { ContentLength(ReadBackAll(r.headers)) }

  /** The declared length is absent or right. */
  predicate LengthFits(r: Response) { Known(r).None? || Known(r).value == |r.content| }

  /** At least one header, and no carriage return or colon where a line or a name ends. */
  predicate Headed(r: Response, order: seq<string>) {
    Separable(r) && Visits(order, r.headers) && order != []
  }

  /** Where the body begins in the printed response. */
  function BodyAt(r: Response, order: seq<string>): nat
    requires Visits(order, r.headers)
  {
    |StatusLine(r)| + |HeaderBlock(r.headers, order)|
  }

  /** The reader when the header block and then `first` body characters arrived together, and
      since then `body`, of which they are the beginning. */
  function ExpectBody(r: Response, first: int, body: string): Reader {
    if Known(r).None? then Reader(AwaitEnd(Head(r)), body)
    else
      var n := Known(r).value;
      if first > n then Reader(Broken, "")
      else if |body| >= n then Reader(Done(Head(r).(content := body[..n])), "")
      else Reader(AwaitLength(Head(r), n), body)
  }

  /** The reader when n characters of the printed response have arrived, where the read that
      completed the header block ended at m. */
  function Expect(r: Response, order: seq<string>, n: nat, m: nat): Reader
    requires Visits(order, r.headers) && n <= |Print(r, order)|
  {
    var t := Print(r, order);
    var a, b := |StatusLine(r)|, BodyAt(r, order);
    if n < a then Reader(AwaitStatus, t[..n])
    else if n < b then Reader(AwaitHeaders(Head0(r)), t[a..n])
    else ExpectBody(r, m - b, t[b..n])
  }

  /** Where the read ends that brings the characters up to b, counted from n on. */
  function ReadUpTo(chunks: seq<string>, n: nat, b: nat): nat
    decreases |chunks|
  {
    if n >= b || chunks == [] then n else ReadUpTo(chunks[1..], n + |chunks[0]|, b)
  }

  lemma StatusThenMore(r: Response, rest: string)
    requires Separable(r)
    ensures FromStart(StatusLine(r) + rest) == AfterStatus(Head0(r), rest)
  {
    var line := StatusLine(r);
    var s := line + rest;
    assert At(s, 0, line) by { assert s[0..|line|] == line; }
    assert At(s, |line| - 2, CRLF) by { assert s[|line| - 2..|line|] == CRLF; }
    assert Contains(s, CRLF);
    StatusRead(s, r);
    assert s[|line|..] == rest;
  }

  lemma HeadersThenMore(r: Response, order: seq<string>, rest: string)
    requires Headed(r, order)
    ensures AfterStatus(Head0(r), HeaderBlock(r.headers, order) + rest) == StartBody(Head(r), rest)
  {
    hide ReadHeaders, StartBody, ReadBackAll, HeaderBlock;
    var block := HeaderBlock(r.headers, order);
    var buffer := block + rest;
    assert At(buffer, 0, block) by { assert buffer[0..|block|] == block; }
    HeaderBlockHasBlankLine(r.headers, order);
    assert At(buffer, |block| - 4, BLANK_LINE) by {
      assert buffer[|block| - 4..|block|] == block[|block| - 4..];
    }
    assert Contains(buffer, BLANK_LINE);
    HeadersRead(buffer, 0, r.headers, order, map[]);
    AddAllVisited(r.headers, order);
    assert buffer[|block|..] == rest;
  }

  lemma HeadersIncomplete(r: Response, order: seq<string>, buffer: string)
    requires Headed(r, order) && buffer < HeaderBlock(r.headers, order)
    ensures AfterStatus(Head0(r), buffer) == Reader(AwaitHeaders(Head0(r)), buffer)
  {
    hide Contains, HeaderBlock;
    HeaderBlockEndsOnce(r.headers, order, buffer);
  }

  lemma PrintIs(r: Response, order: seq<string>)
    requires Visits(order, r.headers)
    ensures forall k :: 0 <= k < |order| ==> order[k] in r.headers
    ensures Print(r, order) == StatusLine(r) + (HeaderBlock(r.headers, order) + r.content)
    ensures BodyAt(r, order) == |StatusLine(r)| + |HeaderBlock(r.headers, order)|
  {
  }

  lemma Slices(line: string, block: string, content: string, n: nat)
    requires n <= |line| + |block| + |content|
    ensures var t := line + (block + content);
      var a, b := |line|, |line| + |block|;
      && (n < a ==> t[..n] < line)
      && (a <= n ==> t[..n] == line + t[a..n])
      && (a <= n < b ==> t[a..n] < block)
      && (b <= n ==> t[a..n] == block + t[b..n] && t[b..n] == content[..n - b])
  {
    var t := line + (block + content);
    if n < |line| {
      assert t[..n] == line[..n];
    } else if n < |line| + |block| {
      assert t[|line|..n] == block[..n - |line|];
    }
  }

  lemma BodyStarts(r: Response, body: string)
    ensures StartBody(Head(r), body) == ExpectBody(r, |body|, body)
  {
    if Known(r).Some? && Known(r).value == |body| {
      assert body[..|body|] == body;
    }
  }

  lemma HeadersArrive(r: Response, order: seq<string>, n: nat)
    requires Headed(r, order) && |StatusLine(r)| <= n <= |Print(r, order)|
    ensures AfterStatus(Head0(r), Print(r, order)[|StatusLine(r)|..n]) == Expect(r, order, n, n)
  {
    hide AfterStatus, StartBody, HeaderBlock, StatusLine, ExpectBody, Print, BodyAt;
    PrintIs(r, order);
    var t, block := Print(r, order), HeaderBlock(r.headers, order);
    var a, b := |StatusLine(r)|, BodyAt(r, order);
    Slices(StatusLine(r), block, r.content, n);
    if n < b {
      HeadersIncomplete(r, order, t[a..n]);
    } else {
      HeadersThenMore(r, order, t[b..n]);
      BodyStarts(r, t[b..n]);
    }
  }

  lemma StatusArrives(r: Response, order: seq<string>, n: nat)
    requires Headed(r, order) && n <= |Print(r, order)|
    ensures FromStart(Print(r, order)[..n]) == Expect(r, order, n, n)
  {
    hide AfterStatus, HeaderBlock, StatusLine, ExpectBody, Print, BodyAt, Contains;
    PrintIs(r, order);
    Slices(StatusLine(r), HeaderBlock(r.headers, order), r.content, n);
    var t := Print(r, order);
    if n < |StatusLine(r)| {
      StatusLineEndsOnce(r, t[..n]);
    } else {
      StatusThenMore(r, t[|StatusLine(r)|..n]);
      HeadersArrive(r, order, n);
    }
  }

  lemma BodyArrives(r: Response, first: int, body: string, chunk: string)
    requires first <= |body|
    ensures Feed(ExpectBody(r, first, body), chunk) == ExpectBody(r, first, body + chunk)
  {
    if Known(r).Some? && first <= Known(r).value {
      var n := Known(r).value;
      if |body| >= n {
        assert (body + chunk)[..n] == body[..n];
      } else if |body + chunk| >= n {
        assert (body + chunk)[..n] == body + chunk[..n - |body|];
      }
    }
  }

  lemma SliceGrows(t: string, from: nat, n: nat, chunk: string)
    requires from <= n && At(t, n, chunk)
    ensures t[from..n] + chunk == t[from..n + |chunk|]
  {
    assert t[n..n + |chunk|] == chunk;
  }

  lemma AtFits(t: string, n: nat, chunk: string)
    requires At(t, n, chunk)
    ensures n + |chunk| <= |t|
  {
  }

  /** One chunk moves the reader from one point of the response to the next. */
  lemma ChunkArrives(r: Response, order: seq<string>, n: nat, m: nat, chunk: string)
    requires Headed(r, order) && At(Print(r, order), n, chunk)
    requires BodyAt(r, order) <= n ==> m <= n
    ensures n + |chunk| <= |Print(r, order)|
    ensures Feed(Expect(r, order, n, m), chunk)
         == Expect(r, order, n + |chunk|, if BodyAt(r, order) <= n then m else n + |chunk|)
  {
    hide AfterStatus, FromStart, At, ExpectBody, Print, BodyAt, HeaderBlock, StatusLine;
    PrintIs(r, order);
    AtFits(Print(r, order), n, chunk);
    var t := Print(r, order);
    var a, b := |StatusLine(r)|, BodyAt(r, order);
    if n < a {
      SliceGrows(t, 0, n, chunk);
      assert t[..n] == t[0..n] && t[..n + |chunk|] == t[0..n + |chunk|];
      StatusArrives(r, order, n + |chunk|);
    } else if n < b {
      SliceGrows(t, a, n, chunk);
      HeadersArrive(r, order, n + |chunk|);
    } else {
      SliceGrows(t, b, n, chunk);
      BodyArrives(r, m - b, t[b..n], chunk);
    }
  }

  lemma {:induction false} ChunksArrive(r: Response, order: seq<string>, n: nat, m: nat, chunks: seq<string>)
    requires Headed(r, order) && At(Print(r, order), n, Flatten(chunks))
    requires BodyAt(r, order) <= n ==> m <= n
    ensures n + |Flatten(chunks)| <= |Print(r, order)|
    ensures FeedAll(Expect(r, order, n, m), chunks)
         == Expect(r, order, n + |Flatten(chunks)|,
                   if BodyAt(r, order) <= n then m else ReadUpTo(chunks, n, BodyAt(r, order)))
    decreases |chunks|
  {
    hide At, Feed, Print, HeaderBlock, StatusLine, BodyAt, Headed, Visits, ExpectBody;
    HeadedVisits(r, order);
    AtFits(Print(r, order), n, Flatten(chunks));
    if chunks != [] {
      AtSplit(Print(r, order), n, chunks[0], Flatten(chunks[1..]));
      ChunkArrives(r, order, n, m, chunks[0]);
      var n' := n + |chunks[0]|;
      var m' := if BodyAt(r, order) <= n then m else n';
      ChunksArrive(r, order, n', m', chunks[1..]);
    }
  }

  lemma HeadedVisits(r: Response, order: seq<string>)
    requires Headed(r, order)
    ensures Visits(order, r.headers)
  {
  }

  /** What the client ends with, for every response with a header, whatever stands after the
      header block, and however the bytes are split into reads. Without a known length the body
      is everything up to the end of the connection. With a known length n it is the next n
      characters, and the response breaks exactly when the read that completes the header block
      already brings more than these, or when the connection ends before them. */
  lemma EveryOutcome(r: Response, order: seq<string>, chunks: seq<string>)
    requires Headed(r, order) && Flatten(chunks) == Print(r, order)
    ensures var end := FeedAll(FRESH, chunks);
      var early := ReadUpTo(chunks, 0, BodyAt(r, order)) - BodyAt(r, order);
      if Known(r).None? then Close(end).phase == Done(AsRead(r))
      else
        var n := Known(r).value;
        if early > n then end.phase == Broken
        else if |r.content| >= n then end.phase == Done(AsRead(r).(content := r.content[..n]))
        else end.phase == AwaitLength(Head(r), n) && Close(end).phase == Broken
  {
    hide Print, FeedAll, HeaderBlock, StatusLine, At, BodyAt, Headed, Visits;
    HeadedVisits(r, order);
    var t := Print(r, order);
    StartsFresh(r, order);
    ChunksArrive(r, order, 0, 0, chunks) by {
      WholeIsAt(t);
      StartsEmpty(r, order);
    }
    EndsWithBody(r, order, ReadUpTo(chunks, 0, BodyAt(r, order)));
  }

  lemma WholeIsAt(t: string)
    ensures At(t, 0, t)
  {
    assert t[0..0 + |t|] == t;
  }

  lemma StartsEmpty(r: Response, order: seq<string>)
    requires Visits(order, r.headers)
    ensures BodyAt(r, order) > 0
  {
  }

  lemma StartsFresh(r: Response, order: seq<string>)
    requires Visits(order, r.headers)
    ensures Expect(r, order, 0, 0) == FRESH && BodyAt(r, order) > 0
  {
    assert |StatusLine(r)| > 0;
    assert Print(r, order)[..0] == "";
  }

  lemma EndsWithBody(r: Response, order: seq<string>, m: nat)
    requires Visits(order, r.headers)
    ensures Expect(r, order, |Print(r, order)|, m) == ExpectBody(r, m - BodyAt(r, order), r.content)
  {
    hide ExpectBody, HeaderBlock, StatusLine;
    var t, b := Print(r, order), BodyAt(r, order);
    assert t[b..|t|] == r.content;
  }

  lemma {:induction false} ReadEndsInside(chunks: seq<string>, n: nat, b: nat)
    ensures ReadUpTo(chunks, n, b) <= n + |Flatten(chunks)|
    decreases |chunks|
  {
    if n < b && chunks != [] {
      ReadEndsInside(chunks[1..], n + |chunks[0]|, b);
    }
  }

  lemma PrintLength(r: Response, order: seq<string>)
    requires Visits(order, r.headers)
    ensures |Print(r, order)| == BodyAt(r, order) + |r.content|
  {
  }

  /** However the bytes of a printed response are split into reads, the client ends with the same
      response when the declared length is absent or right: status line, header names and body as
      printed, and each header value as ReadBack leaves it. A response of declared length is
      complete at its last byte, any other when the peer closes the connection. */
  lemma ReadsBack(r: Response, order: seq<string>, chunks: seq<string>)
    requires Headed(r, order) && LengthFits(r) && Flatten(chunks) == Print(r, order)
    ensures var end := FeedAll(FRESH, chunks);
      && Close(end).phase == Done(AsRead(r))
      && (Known(r).Some? ==> end.phase == Done(AsRead(r)))
  {
    hide Print, FeedAll, HeaderBlock, StatusLine, BodyAt, Headed, Visits, ReadUpTo;
    HeadedVisits(r, order);
    EveryOutcome(r, order, chunks);
    ReadEndsInside(chunks, 0, BodyAt(r, order));
    PrintLength(r, order);
    assert r.content[..|r.content|] == r.content;
  }

  lemma PrintMore(r: Response, order: seq<string>, surplus: string)
    requires Visits(order, r.headers)
    ensures var more := r.(content := r.content + surplus);
      Print(more, order) == Print(r, order) + surplus && BodyAt(more, order) == BodyAt(r, order)
  {
    hide HeaderBlock;
    assert StatusLine(r.(content := r.content + surplus)) == StatusLine(r);
  }

  /** Bytes after a body of known and right length break the response exactly when the read that
      completes the header block brings more than the whole body. In any other split, also one in
      which they arrive together with the end of the body, they are left on the connection. */
  lemma SurplusBreaksExactly(r: Response, order: seq<string>, surplus: string, chunks: seq<string>)
    requires Headed(r, order) && Known(r) == Some(|r.content|)
    requires Flatten(chunks) == Print(r, order) + surplus
    ensures var end := FeedAll(FRESH, chunks);
      && (end.phase == Broken <==>
            ReadUpTo(chunks, 0, BodyAt(r, order)) > BodyAt(r, order) + |r.content|)
      && (end.phase == Broken || end.phase == Done(AsRead(r)))
  {
    hide FeedAll, HeaderBlock, StatusLine, ReadUpTo;
    var more := r.(content := r.content + surplus);
    PrintMore(r, order, surplus);
    EveryOutcome(more, order, chunks);
    assert (r.content + surplus)[..|r.content|] == r.content;
  }

  // Responses without headers

  /** The reader when n characters of a response without headers have arrived. The line break that
      ends the empty header block is taken for the start of the headers, so a blank line can only
      come from the body. */
  function ExpectBare(r: Response, n: nat): Reader
    requires n <= |StatusLine(r)| + 2 + |r.content|
  {
    var t, a := StatusLine(r) + (CRLF + r.content), |StatusLine(r)|;
    if n < a then Reader(AwaitStatus, t[..n])
    else if !Contains(t[a..n], BLANK_LINE) then Reader(AwaitHeaders(Head0(r)), t[a..n])
    else Reader(AwaitEnd(Head0(r)), t[a + 2..n])
  }

  lemma ContainsMore(p: string, s: string, t: string)
    requires p <= s && Contains(p, t)
    ensures Contains(s, t)
  {
    var i: nat :| i <= |p| && At(p, i, t);
    assert s[i..i + |t|] == p[i..i + |t|];
    assert At(s, i, t);
  }

  lemma BareHeaders(r: Response, rest: string)
    requires CRLF <= rest && Contains(rest, BLANK_LINE)
    ensures AfterStatus(Head0(r), rest) == Reader(AwaitEnd(Head0(r)), rest[2..])
  {
    assert rest[0] == CRLF[0] && rest[1] == CRLF[1];
    LineEndAt(rest, 0, 0);
    assert ReadHeaders(rest, 0, map[]) == Good(map[], 2);
  }

  lemma BlankLineIsLong(s: string)
    requires Contains(s, BLANK_LINE)
    ensures |s| >= 4
  {
  }

  lemma BareRestArrives(r: Response, n: nat)
    requires Separable(r) && |StatusLine(r)| <= n <= |StatusLine(r)| + 2 + |r.content|
    ensures var t, a := StatusLine(r) + (CRLF + r.content), |StatusLine(r)|;
      AfterStatus(Head0(r), t[a..n]) == ExpectBare(r, n)
  {
    hide Contains, StatusLine, AfterStatus;
    var t, a := StatusLine(r) + (CRLF + r.content), |StatusLine(r)|;
    var rest := t[a..n];
    if Contains(rest, BLANK_LINE) {
      BlankLineIsLong(rest);
      assert rest == (CRLF + r.content)[..n - a];
      BareHeaders(r, rest);
      assert rest[2..] == t[a + 2..n];
    } else {
      NoBlankLineYet(r, rest);
    }
  }

  lemma NoBlankLineYet(r: Response, rest: string)
    requires !Contains(rest, BLANK_LINE)
    ensures AfterStatus(Head0(r), rest) == Reader(AwaitHeaders(Head0(r)), rest)
  {
  }

  lemma BareChunkArrives(r: Response, n: nat, chunk: string)
    requires Separable(r) && At(StatusLine(r) + (CRLF + r.content), n, chunk)
    ensures n + |chunk| <= |StatusLine(r)| + 2 + |r.content|
    ensures Feed(ExpectBare(r, n), chunk) == ExpectBare(r, n + |chunk|)
  {
    hide Contains, At, StatusLine, AfterStatus, FromStart;
    var t, a := StatusLine(r) + (CRLF + r.content), |StatusLine(r)|;
    AtFits(t, n, chunk);
    var m := n + |chunk|;
    if n < a {
      SliceGrows(t, 0, n, chunk);
      assert t[..n] == t[0..n] && t[..m] == t[0..m];
      Slices(StatusLine(r), CRLF, r.content, m);
      if m < a {
        StatusLineEndsOnce(r, t[..m]);
        NoLineYet(t[..m]);
      } else {
        StatusThenMore(r, t[a..m]);
        BareRestArrives(r, m);
      }
    } else {
      SliceGrows(t, a, n, chunk);
      if Contains(t[a..n], BLANK_LINE) {
        BlankLineIsLong(t[a..n]);
        ContainsMore(t[a..n], t[a..m], BLANK_LINE);
        SliceGrows(t, a + 2, n, chunk);
      } else {
        BareRestArrives(r, m);
      }
    }
  }

  lemma NoLineYet(p: string)
    requires !Contains(p, CRLF)
    ensures FromStart(p) == Reader(AwaitStatus, p)
  {
  }

  lemma {:induction false} BareChunksArrive(r: Response, n: nat, chunks: seq<string>)
    requires Separable(r) && At(StatusLine(r) + (CRLF + r.content), n, Flatten(chunks))
    ensures n + |Flatten(chunks)| <= |StatusLine(r)| + 2 + |r.content|
    ensures FeedAll(ExpectBare(r, n), chunks) == ExpectBare(r, n + |Flatten(chunks)|)
    decreases |chunks|
  {
    hide At, Feed, StatusLine, Separable, ExpectBare;
    AtFits(StatusLine(r) + (CRLF + r.content), n, Flatten(chunks));
    if chunks != [] {
      AtSplit(StatusLine(r) + (CRLF + r.content), n, chunks[0], Flatten(chunks[1..]));
      BareChunkArrives(r, n, chunks[0]);
      BareChunksArrive(r, n + |chunks[0]|, chunks[1..]);
    }
  }

  /** However it is split, a response without headers comes back exactly when its body, after the
      line break in front of it, holds a blank line; else the client waits for its headers until
      the connection ends, and the response breaks. */
  lemma BareRoundTripExactly(r: Response, chunks: seq<string>)
    requires Separable(r) && r.headers == map[] && Flatten(chunks) == Print(r, [])
    ensures var end := FeedAll(FRESH, chunks);
      if Contains(CRLF + r.content, BLANK_LINE) then Close(end).phase == Done(r)
      else end.phase == AwaitHeaders(Head0(r)) && Close(end).phase == Broken
  {
    hide Contains, StatusLine, At, FeedAll;
    var t, a := StatusLine(r) + (CRLF + r.content), |StatusLine(r)|;
    assert HeaderBlock(r.headers, []) == CRLF;
    assert Print(r, []) == t;
    BareStartsFresh(r);
    WholeIsAt(t);
    BareChunksArrive(r, 0, chunks);
    assert t[a..|t|] == CRLF + r.content;
    assert t[a + 2..|t|] == r.content;
  }

  lemma BareStartsFresh(r: Response)
    ensures ExpectBare(r, 0) == FRESH
  {
    assert |StatusLine(r)| > 0;
    assert (StatusLine(r) + (CRLF + r.content))[..0] == "";
  }

  lemma NothingVisited(headers: Headers, order: seq<string>)
    requires Visits(order, headers)
    ensures order == [] <==> headers == map[]
  {
    assert order == [] || order[0] in headers;
  }

  /** Parsing undoes printing exactly for these responses: with headers, all whose values survive
      and whose declared length, as the client then reads it, is absent or right; without headers,
      those whose body supplies a blank line. */
  predicate ComesBack(r: Response) {
    if r.headers == map[] then Contains(CRLF + r.content, BLANK_LINE)
    else (forall name :: name in r.headers ==> Survives(r.headers[name])) && LengthFits(r)
  }

  lemma RoundTripExactly(r: Response, order: seq<string>, chunks: seq<string>)
    requires Separable(r) && Visits(order, r.headers) && Flatten(chunks) == Print(r, order)
    ensures Close(FeedAll(FRESH, chunks)).phase == Done(r) <==> ComesBack(r)
  {
    hide FeedAll, StatusLine, HeaderBlock, Print, Contains, ReadUpTo, ReadBackAll;
    if r.headers == map[] {
      NothingVisited(r.headers, order);
      BareRoundTripExactly(r, chunks);
    } else {
      NothingVisited(r.headers, order);
      EveryOutcome(r, order, chunks);
      ReadBackAllExactly(r.headers);
      if LengthFits(r) {
        ReadsBack(r, order, chunks);
      }
    }
  }

  // Any bytes at all

  /** The characters seen so far begin with a status line that was accepted. */
  ghost predicate StatusSeen(seen: string, head: Response) {
    exists k: nat :: k <= |seen|
      && ReadStatus(seen[..k]).Good? && ReadStatus(seen[..k]).value == head.(headers := map[], content := "")
  }

  /** They hold a header block that was accepted. */
  ghost predicate HeadersSeen(seen: string, head: Response) {
    exists i: nat, n: nat :: i <= n <= |seen|
      && ReadHeaders(seen[i..n], 0, map[]).Good? && ReadHeaders(seen[i..n], 0, map[]).value == head.headers
  }

  /** What the reader has in each phase. */
  ghost predicate Accounts(r: Reader, seen: string) {
    && (r.phase.AwaitStatus? <==> !Contains(seen, CRLF))
    && match r.phase
       case AwaitStatus => r.buffer == seen
       case AwaitHeaders(head) =>
         && StatusSeen(seen, head) && head.headers == map[] && head.content == "" && !Contains(r.buffer, BLANK_LINE)
         && |r.buffer| <= |seen| && seen[|seen| - |r.buffer|..] == r.buffer
       case AwaitLength(head, n) =>
         StatusSeen(seen, head) && HeadersSeen(seen, head) && ContentLength(head.headers) == Some(n)
       case AwaitEnd(head) =>
         StatusSeen(seen, head) && HeadersSeen(seen, head) && ContentLength(head.headers) == None
       case Done(head) => StatusSeen(seen, head) && HeadersSeen(seen, head)
       case Broken => true
  }

  lemma SeenMore(seen: string, chunk: string, head: Response)
    ensures StatusSeen(seen, head) ==> StatusSeen(seen + chunk, head)
    ensures HeadersSeen(seen, head) ==> HeadersSeen(seen + chunk, head)
  {
    if StatusSeen(seen, head) {
      var k: nat :| k <= |seen|
        && ReadStatus(seen[..k]).Good? && ReadStatus(seen[..k]).value == head.(headers := map[], content := "");
      assert (seen + chunk)[..k] == seen[..k];
    }
    if HeadersSeen(seen, head) {
      var i: nat, n: nat :| i <= n <= |seen|
        && ReadHeaders(seen[i..n], 0, map[]).Good? && ReadHeaders(seen[i..n], 0, map[]).value == head.headers;
      assert (seen + chunk)[i..n] == seen[i..n];
    }
  }

  lemma HeadersAccount(head: Response, buffer: string, seen: string)
    requires StatusSeen(seen, head) && head.headers == map[] && head.content == "" && Contains(seen, CRLF)
    requires |buffer| <= |seen| && seen[|seen| - |buffer|..] == buffer
    ensures Accounts(AfterStatus(head, buffer), seen)
  {
    hide ReadStatus, ReadHeaders, Contains, ContentLength;
    if Contains(buffer, BLANK_LINE) && ReadHeaders(buffer, 0, map[]).Good? {
      var full := head.(headers := ReadHeaders(buffer, 0, map[]).value);
      var rest := buffer[ReadHeaders(buffer, 0, map[]).pos..];
      assert seen[|seen| - |buffer|..|seen|] == buffer;
      assert HeadersSeen(seen, full);
      assert full.(headers := map[], content := "") == head;
      assert StatusSeen(seen, full);
      assert full.(content := rest).(headers := map[], content := "") == head;
      assert StatusSeen(seen, full.(content := rest)) && HeadersSeen(seen, full.(content := rest));
    }
  }

  lemma StartAccounts(seen: string)
    ensures Accounts(FromStart(seen), seen)
  {
    hide ReadStatus, AfterStatus, Contains;
    if Contains(seen, CRLF) && ReadStatus(seen).Good? {
      var st := ReadStatus(seen);
      assert seen[..|seen|] == seen;
      StatusIsBare(seen);
      assert StatusSeen(seen, st.value);
      var buffer := seen[st.pos..];
      assert seen[|seen| - |buffer|..] == buffer;
      HeadersAccount(st.value, buffer, seen);
    }
  }

  lemma StatusIsBare(s: string)
    requires ReadStatus(s).Good?
    ensures ReadStatus(s).value.headers == map[] && ReadStatus(s).value.content == ""
  {
  }

  lemma FeedAccounts(r: Reader, seen: string, chunk: string)
    requires Accounts(r, seen)
    ensures Accounts(Feed(r, chunk), seen + chunk)
  {
    hide FromStart, AfterStatus, Contains, StatusSeen, HeadersSeen, ContentLength;
    var more := seen + chunk;
    assert seen <= more;
    if Contains(seen, CRLF) {
      ContainsMore(seen, more, CRLF);
    }
    match r.phase
    case AwaitStatus => StartAccounts(more);
    case AwaitHeaders(head) =>
      SeenMore(seen, chunk, head);
      var buffer := r.buffer + chunk;
      assert more[|more| - |buffer|..] == buffer;
      HeadersAccount(head, buffer, more);
    case AwaitLength(head, n) =>
      SeenMore(seen, chunk, head);
      if |r.buffer| <= n <= |r.buffer| + |chunk| {
        OtherContent(more, head, r.buffer + chunk[..n - |r.buffer|]);
      }
    case AwaitEnd(head) => SeenMore(seen, chunk, head);
    case Done(head) => SeenMore(seen, chunk, head);
    case Broken =>
  }

  lemma OtherContent(seen: string, head: Response, content: string)
    requires StatusSeen(seen, head) && HeadersSeen(seen, head)
    ensures StatusSeen(seen, head.(content := content)) && HeadersSeen(seen, head.(content := content))
  {
    assert head.(content := content).(headers := map[], content := "") == head.(headers := map[], content := "");
  }

  lemma {:induction false} FeedAllAccounts(r: Reader, seen: string, chunks: seq<string>)
    requires Accounts(r, seen)
    ensures Accounts(FeedAll(r, chunks), seen + Flatten(chunks))
    decreases |chunks|
  {
    hide Accounts, Feed;
    if chunks == [] {
      assert seen + "" == seen;
    } else {
      FeedAccounts(r, seen, chunks[0]);
      FeedAllAccounts(Feed(r, chunks[0]), seen + chunks[0], chunks[1..]);
      assert seen + chunks[0] + Flatten(chunks[1..]) == seen + Flatten(chunks);
    }
  }

  /** Whatever arrives, in whatever pieces: the client waits for the status line exactly until a line
      break has arrived, and for the headers until a blank line has arrived behind it; a body is
      awaited, and a response delivered, only behind a status line and a header block that were
      accepted; otherwise the response is broken. */
  lemma AnyBytes(chunks: seq<string>)
    ensures Accounts(FeedAll(FRESH, chunks), Flatten(chunks))
    ensures FeedAll(FRESH, chunks).phase.AwaitStatus? <==> !Contains(Flatten(chunks), CRLF)
  {
    FeedAllAccounts(FRESH, "", chunks);
    assert "" + Flatten(chunks) == Flatten(chunks);
  }

  // The handlers as they run

  /** The reading side of a session: its read buffer and what it is waiting for. */
  class SessionReader {
    var phase: Phase
    var readBuffer: string

    ghost function Abs(): Reader
      reads this
    {
      Reader(phase, readBuffer)
    }

    constructor ()
      ensures Abs() == FRESH
    {
      phase, readBuffer := AwaitStatus, "";
    }

    /** The loop of `HandleReadHeaders` over the header lines at the front of the buffer. */
    method ReadHeaderLines() returns (result: Parsed<Headers>)
      ensures result == ReadHeaders(readBuffer, 0, map[])
    {
      hide ReadHeaders;
      var headers: Headers := map[];
      var pos := 0;
      while true
        invariant pos <= |readBuffer|
        invariant ReadHeaders(readBuffer, pos, headers) == ReadHeaders(readBuffer, 0, map[])
        decreases |readBuffer| - pos
      {
        OneHeaderOn(readBuffer, pos, headers);
        var end := LineEnd(readBuffer, pos);
        if end + 1 >= |readBuffer| || readBuffer[end + 1] != '\n' {
          return Bad;
        }
        var header := readBuffer[pos..end];
        if header == "" {
          return Good(headers, end + 2);
        }
        var colon := FindColon(header, 0);
        if colon < |header| {
          headers := headers[header[..colon] := HeaderValue(header, colon + 1)];
        }
        pos := end + 2;
      }
    }

    method HandleReadHeaders(head: Response)
      requires Contains(readBuffer, BLANK_LINE)
      modifies this
      ensures Abs() == AfterStatus(head, old(readBuffer))
    {
      var headers := ReadHeaderLines();
      if headers.Bad? {
        phase, readBuffer := Broken, "";
        return;
      }
      var full := head.(headers := headers.value);
      readBuffer := readBuffer[headers.pos..];
      var contentLength := ContentLength(full.headers);
      if contentLength.None? {
        phase := AwaitEnd(full);
      } else if contentLength.value <= |readBuffer| {
        if contentLength.value != |readBuffer| {
          phase, readBuffer := Broken, "";
        } else {
          phase, readBuffer := Done(full.(content := readBuffer)), "";
        }
      } else {
        phase := AwaitLength(full, contentLength.value);
      }
    }

    /** After the status line the wait for the blank line begins with what is already buffered. */
    method AwaitHeaderBlock(head: Response)
      modifies this
      ensures Abs() == AfterStatus(head, old(readBuffer))
    {
      if Contains(readBuffer, BLANK_LINE) {
        HandleReadHeaders(head);
      } else {
        phase := AwaitHeaders(head);
      }
    }

    method HandleReadStatusLine()
      requires Contains(readBuffer, CRLF)
      modifies this
      ensures Abs() == FromStart(old(readBuffer))
    {
      var status := ReadStatus(readBuffer);
      if status.Bad? {
        phase, readBuffer := Broken, "";
      } else {
        readBuffer := readBuffer[status.pos..];
        AwaitHeaderBlock(status.value);
      }
    }

    /** The connection delivers a chunk; what the pending read does not take is returned. */
    method Receive(chunk: string) returns (unread: string)
      modifies this
      ensures Abs() == Feed(old(Abs()), chunk)
      ensures unread ==
        match old(phase)
        case AwaitLength(_, n) =>
          if |old(readBuffer)| + |chunk| < n then ""
          else if |old(readBuffer)| <= n then chunk[n - |old(readBuffer)|..]
          else chunk
        case Done(_) => chunk
        case Broken => chunk
        case _ => ""
    {
      unread := "";
      match phase
      case AwaitStatus =>
        readBuffer := readBuffer + chunk;
        if Contains(readBuffer, CRLF) {
          HandleReadStatusLine();
        }
      case AwaitHeaders(head) =>
        readBuffer := readBuffer + chunk;
        AwaitHeaderBlock(head);
      case AwaitLength(head, n) =>
        if |readBuffer| + |chunk| < n {
          readBuffer := readBuffer + chunk;
        } else if |readBuffer| <= n {
          var taken := n - |readBuffer|;
          unread := chunk[taken..];
          phase, readBuffer := Done(head.(content := readBuffer + chunk[..taken])), "";
        } else {
          unread := chunk;
        }
      case AwaitEnd(_) => readBuffer := readBuffer + chunk;
      case Done(_) => unread := chunk;
      case Broken => unread := chunk;
    }

    /** The peer closes the connection. */
    method ReceiveEnd()
      modifies this
      ensures Abs() == Close(old(Abs()))
    {
      match phase
      case AwaitEnd(head) => phase, readBuffer := Done(head.(content := readBuffer)), "";
      case Done(_) =>
      case _ => phase, readBuffer := Broken, "";
    }
  }
}

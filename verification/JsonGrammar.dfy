/** A grammar of what the parser accepts, with the value of every text of it, and the proof that the
    parser reads these values. It contains JSON as sections 2 to 7 of RFC 8259 define it, and beyond
    that comments, single quotes, unknown escapes, looser numbers, a comma before a closing bracket
    and members or elements without a value. */
module JsonGrammar {
  import opened JsonTree
  import opened Options
  import opened Texts
  import opened Decimals
  import opened JsonNumbers
  import opened Scan = JsonScan
  import opened JsonRoundTrip
  import opened JsonPermissive
  import opened JsonText

  // White space and comments

  /** A comment goes up to and with the first line break. */
  datatype GapItem = White(c: char) | Comment(text: string, end: char)

  type Gap = seq<GapItem>

  predicate ValidItem(g: GapItem) {
    match g
    case White(c) => c in {' ', '\t', '\n', '\r', 11 as char, 12 as char}
    case Comment(text, end) => '\n' !in text && '\r' !in text && end in {'\n', '\r'}
  }

  predicate ValidGap(g: Gap) { forall k :: 0 <= k < |g| ==> ValidItem(g[k]) }

  function ItemText(g: GapItem): string {
    match g
    case White(c) => [c]
    case Comment(text, end) => "//" + (text + [end])
  }

  function GapText(g: Gap): string { if g == [] then "" else ItemText(g[0]) + GapText(g[1..]) }

  // Strings

  /** A character that stands for itself, one behind a backslash, or four hexadecimal digits behind
      `\u`, given with their values. */
  datatype Piece = Plain(c: char) | Escape(c: char) | Hex(digits: string, values: seq<nat>)

  const LOWER := "0123456789abcdef"
  const UPPER := "0123456789ABCDEF"

  predicate ValidPiece(p: Piece, quote: char) {
    match p
    case Plain(c) => c != quote && c != '\\'
    case Escape(c) => c != 'u'
    case Hex(digits, values) =>
      && |digits| == |values| == 4
      && forall k :: 0 <= k < 4 ==> values[k] < 16 && (digits[k] == LOWER[values[k]] || digits[k] == UPPER[values[k]])
  }

  predicate ValidPieces(pieces: seq<Piece>, quote: char) {
    forall k :: 0 <= k < |pieces| ==> ValidPiece(pieces[k], quote)
  }

  function PieceText(p: Piece): string {
    match p
    case Plain(c) => [c]
    case Escape(c) => ['\\', c]
    case Hex(digits, _) => "\\u" + digits
  }

  /** Escapes as in section 7 of RFC 8259; of a `\u` escape the low byte is kept. The quote can be
      escaped, and a backslash before any other character stays. */
  function PieceValue(p: Piece, quote: char): string
    requires ValidPiece(p, quote)
  {
    match p
    case Plain(c) => [c]
    case Hex(_, v) => [((4096 * v[0] + 256 * v[1] + 16 * v[2] + v[3]) % 256) as char]
    case Escape('b') => [8 as char]
    case Escape('t') => [9 as char]
    case Escape('n') => [10 as char]
    case Escape('f') => [12 as char]
    case Escape('r') => [13 as char]
    case Escape(c) => if c == '/' || c == '\\' || c == quote then [c] else ['\\', c]
  }

  function PiecesText(pieces: seq<Piece>): string {
    if pieces == [] then "" else PieceText(pieces[0]) + PiecesText(pieces[1..])
  }

  function PiecesValue(pieces: seq<Piece>, quote: char): string
    requires ValidPieces(pieces, quote)
  {
    if pieces == [] then "" else PieceValue(pieces[0], quote) + PiecesValue(pieces[1..], quote)
  }

  predicate IsQuote(c: char) { c == '"' || c == '\'' }

  function QuotedText(quote: char, pieces: seq<Piece>): string { [quote] + (PiecesText(pieces) + [quote]) }

  // Values

  /** A number may have either sign and lack the digits in front of its point or behind it. `Missing`
      stands where a comma follows instead of a value. */
  datatype Syntax =
    | Str(quote: char, pieces: seq<Piece>)
    | Num(sign: string, whole: string, point: bool, fraction: string, exponent: Option<Exponent>)
    | True | False | Nil | Missing
    | Arr(elems: Elems)
    | Obj(members: Members)

  /** What follows the opening bracket: the closing bracket, a last element, or one and a comma. */
  datatype Elems =
    | NoElem(gap: Gap)
    | LastElem(before: Gap, value: Syntax, after: Gap)
    | MoreElem(before: Gap, value: Syntax, after: Gap, rest: Elems)

  datatype Key = Key(before: Gap, quote: char, pieces: seq<Piece>, after: Gap)

  datatype Members =
    | NoMember(gap: Gap)
    | LostMember(key: Key, gap: Gap)
    | LastMember(key: Key, before: Gap, value: Syntax, after: Gap)
    | MoreMember(key: Key, before: Gap, value: Syntax, after: Gap, rest: Members)

  predicate ValidKey(k: Key) {
    ValidGap(k.before) && IsQuote(k.quote) && ValidPieces(k.pieces, k.quote) && ValidGap(k.after)
  }

  predicate Valid(x: Syntax) {
    match x
    case Str(quote, pieces) => IsQuote(quote) && ValidPieces(pieces, quote)
    case Num(sign, whole, point, fraction, _) => ValidLoose(sign, whole, point, fraction)
    case Arr(elems) => ValidElems(elems)
    case Obj(members) => ValidMembers(members)
    case _ => true
  }

  predicate ValidElems(e: Elems) {
    match e
    case NoElem(gap) => ValidGap(gap)
    case LastElem(before, v, after) => ValidGap(before) && Valid(v) && v != Missing && ValidGap(after)
    case MoreElem(before, v, after, rest) =>
      ValidGap(before) && Valid(v) && (v == Missing ==> after == []) && ValidGap(after) && ValidElems(rest)
  }

  predicate ValidMembers(m: Members) {
    match m
    case NoMember(gap) => ValidGap(gap)
    case LostMember(k, gap) => ValidKey(k) && ValidGap(gap)
    case LastMember(k, before, v, after) =>
      ValidKey(k) && ValidGap(before) && Valid(v) && v != Missing && ValidGap(after)
    case MoreMember(k, before, v, after, rest) =>
      && ValidKey(k) && ValidGap(before) && Valid(v) && (v == Missing ==> after == []) && ValidGap(after)
      && ValidMembers(rest)
  }

  function TextOf(x: Syntax): string {
    match x
    case Str(quote, pieces) => QuotedText(quote, pieces)
    case Num(sign, whole, point, fraction, exponent) => LooseToken(sign, whole, point, fraction, exponent)
    case True => "true"
    case False => "false"
    case Nil => "null"
    case Missing => ""
    case Arr(elems) => "[" + ElemsText(elems)
    case Obj(members) => "{" + MembersText(members)
  }

  function ElemsText(e: Elems): string {
    match e
    case NoElem(gap) => GapText(gap) + "]"
    case LastElem(before, v, after) => GapText(before) + (TextOf(v) + (GapText(after) + "]"))
    case MoreElem(before, v, after, rest) =>
      GapText(before) + (TextOf(v) + (GapText(after) + ("," + ElemsText(rest))))
  }

  /** A key with what stands around it, and the colon. */
  function KeyText(k: Key): string { GapText(k.before) + (QuotedText(k.quote, k.pieces) + (GapText(k.after) + ":")) }

  function MembersText(m: Members): string {
    match m
    case NoMember(gap) => GapText(gap) + "}"
    case LostMember(k, gap) => KeyText(k) + (GapText(gap) + "}")
    case LastMember(k, before, v, after) =>
      KeyText(k) + (GapText(before) + (TextOf(v) + (GapText(after) + "}")))
    case MoreMember(k, before, v, after, rest) =>
      KeyText(k) + (GapText(before) + (TextOf(v) + (GapText(after) + ("," + MembersText(rest)))))
  }

  function Meaning(x: Syntax): Value
    requires Valid(x)
  {
    match x
    case Str(quote, pieces) => String(PiecesValue(pieces, quote))
    case Num(sign, whole, _, fraction, exponent) => Number(TokenValue(sign == "-", whole, fraction, exponent))
    case True => Boolean(true)
    case False => Boolean(false)
    case Nil => Null
    case Missing => Null
    case Arr(elems) => Array(Elements(elems))
    case Obj(members) => Object(Pairs(members, map[]))
  }

  function Elements(e: Elems): seq<Value>
    requires ValidElems(e)
  {
    match e
    case NoElem(_) => []
    case LastElem(_, v, _) => [Meaning(v)]
    case MoreElem(_, v, _, rest) => [Meaning(v)] + Elements(rest)
  }

  /** The pairs in their order, each in place of an earlier one with its key. A last key without a value
      is lost. */
  function Pairs(m: Members, acc: map<string, Value>): map<string, Value>
    requires ValidMembers(m)
  {
    match m
    case NoMember(_) => acc
    case LostMember(_, _) => acc
    case LastMember(k, _, v, _) => acc[PiecesValue(k.pieces, k.quote) := Meaning(v)]
    case MoreMember(k, _, v, _, rest) => Pairs(rest, acc[PiecesValue(k.pieces, k.quote) := Meaning(v)])
  }

  // Gaps are skipped

  predicate Solid(c: char) { !IsSpace(c) && c != '/' }

  lemma SkipSpaceStops(s: string, i: nat, p: nat)
    requires i <= p < |s| && !IsSpace(s[p])
    ensures SkipSpace(s, i) <= p
    decreases p - i
  {
  }

  lemma LineEndAt(s: string, i: nat, text: string, end: char)
    requires At(s, i, text + [end]) && '\n' !in text && '\r' !in text && (end == '\n' || end == '\r')
    ensures LineEnd(s, i) == i + |text| && i + |text| < |s| && s[i + |text|] == end
    decreases |text|
  {
    AtChar(s, i, text + [end], 0);
    if text != "" {
      assert text + [end] == [text[0]] + (text[1..] + [end]);
      AtSplit(s, i, [text[0]], text[1..] + [end]);
      LineEndAt(s, i + 1, text[1..], end);
    }
  }

  lemma WhiteMatch(s: string, i: nat, pattern: string)
    requires i < |s| && IsSpace(s[i])
    ensures Match(s, i, pattern) == Match(s, i + 1, pattern)
  {
    hide MatchFrom;
  }

  lemma CommentMatch(s: string, i: nat, text: string, end: char, pattern: string)
    requires At(s, i, "//" + (text + [end])) && ValidItem(Comment(text, end))
    requires pattern != "" && pattern[0] != '/'
    ensures i + 3 + |text| <= |s|
    ensures SkipSpace(s, i + 3 + |text|) < |s| ==> Match(s, i, pattern) == Match(s, i + 3 + |text|, pattern)
  {
    AtSplit(s, i, "//", text + [end]);
    AtChar(s, i, "//", 0);
    AtChar(s, i, "//", 1);
    LineEndAt(s, i + 2, text, end);
    EndIsSkipped(s, i + 2 + |text|, end);
    assert SkipComment(s, i) == SkipSpace(s, i + 3 + |text|);
    SkipSpaceTwice(s, i + 3 + |text|);
    assert SkipSpace(s, i) == i;
    hide SkipComment, SkipSpace, LineEnd;
  }

  lemma EndIsSkipped(s: string, i: nat, end: char)
    requires i < |s| && s[i] == end && (end == '\n' || end == '\r')
    ensures SkipSpace(s, i) == SkipSpace(s, i + 1)
  {
  }

  lemma ItemMatch(s: string, i: nat, g: GapItem, p: nat, pattern: string)
    requires ValidItem(g) && At(s, i, ItemText(g)) && pattern != "" && pattern[0] != '/'
    requires i + |ItemText(g)| <= p < |s| && Solid(s[p])
    ensures Match(s, i, pattern) == Match(s, i + |ItemText(g)|, pattern)
  {
    hide Match, SkipSpace, At;
    match g
    case White(c) =>
      AtChar(s, i, [c], 0);
      WhiteMatch(s, i, pattern);
    case Comment(text, end) =>
      hide ValidItem;
      CommentMatch(s, i, text, end, pattern);
      SkipSpaceStops(s, i + 3 + |text|, p);
  }

  lemma {:induction false} GapMatch(s: string, i: nat, g: Gap, pattern: string)
    requires ValidGap(g) && At(s, i, GapText(g)) && pattern != "" && pattern[0] != '/'
    requires i + |GapText(g)| < |s| && Solid(s[i + |GapText(g)|])
    ensures Match(s, i, pattern) == Match(s, i + |GapText(g)|, pattern)
    decreases |g|
  {
    hide Match, At, ItemText, ValidItem, Solid;
    if g != [] {
      AtSplit(s, i, ItemText(g[0]), GapText(g[1..]));
      GapMatch(s, i + |ItemText(g[0])|, g[1..], pattern);
      ItemMatch(s, i, g[0], i + |GapText(g)|, pattern);
    }
  }

  // Strings are read

  lemma HexDigitOf(c: char, v: nat)
    requires v < 16 && (c == LOWER[v] || c == UPPER[v])
    ensures HexDigit(c) == v && !IsSpace(c) && c != '-' && c != '+' && c != 'x' && c != 'X'
  {
  }

  lemma HexRead(digits: string, v: seq<nat>)
    requires ValidPiece(Hex(digits, v), '"')
    ensures UnicodeEscape(digits) == PieceValue(Hex(digits, v), '"')
  {
    hide PieceValue;
    forall k | 0 <= k < 4
      ensures HexDigit(digits[k]) == v[k] && !IsSpace(digits[k]) && digits[k] != '-' && digits[k] != '+'
      ensures digits[k] != 'x' && digits[k] != 'X'
    {
      HexDigitOf(digits[k], v[k]);
    }
    HexRunOfFour(digits, v);
    HexValue(digits, v);
    assert SkipSpace(digits, 0) == 0;
    hide HexDigit, HexRun, SkipSpace, ValidPiece;
  }

  lemma HexValue(digits: string, v: seq<nat>)
    requires ValidPiece(Hex(digits, v), '"')
    ensures PieceValue(Hex(digits, v), '"') == [LowByte(4096 * v[0] + 256 * v[1] + 16 * v[2] + v[3])]
  {
  }

  lemma HexRunOfFour(digits: string, v: seq<nat>)
    requires |digits| == |v| == 4 && forall k :: 0 <= k < 4 ==> HexDigit(digits[k]) == v[k]
    ensures HexRun(digits, 0, 0) == 4096 * v[0] + 256 * v[1] + 16 * v[2] + v[3]
  {
    hide HexDigit;
    var a := v[0];
    var b := 16 * a + v[1];
    var c := 16 * b + v[2];
    var d := 16 * c + v[3];
    assert HexRun(digits, 4, d) == d;
    assert HexRun(digits, 3, c) == HexRun(digits, 4, d);
    assert HexRun(digits, 2, b) == HexRun(digits, 3, c);
    assert HexRun(digits, 1, a) == HexRun(digits, 2, b);
  }

  /** What the printer escapes: eight characters with two, the other control characters with six;
      all others stand for themselves. */
  lemma EscapeForm(c: char)
    ensures var e := EscapeChar(c);
      if c == '"' || c == '\\' || c == '/' || c as int in {8, 9, 10, 12, 13} then
        && |e| == 2 && e[0] == '\\' && e[1] != 'u'
        && PieceValue(Escape(e[1]), '"') == [c]
      else if c as int < 32 then e == "\\u00" + [LOWER[c as int / 16], LOWER[c as int % 16]]
      else e == [c]
  {
  }

  lemma PieceRead(s: string, i: nat, p: Piece, quote: char, acc: string)
    requires At(s, i, PieceText(p)) && IsQuote(quote) && ValidPiece(p, quote)
    ensures i + |PieceText(p)| <= |s|
    ensures StringBody(s, i, quote, acc)
         == StringBody(s, i + |PieceText(p)|, quote, acc + PieceValue(p, quote))
  {
    match p
    case Plain(c) => AtChar(s, i, [c], 0);
    case Escape(c) =>
      AtChar(s, i, ['\\', c], 0);
      AtChar(s, i, ['\\', c], 1);
      EscapeRead(c, quote);
    case Hex(digits, values) =>
      hide UnicodeEscape, PieceValue, ValidPiece;
      HexIsFour(digits, values, quote);
      AtSplit(s, i, "\\u", digits);
      AtChar(s, i, "\\u", 0);
      AtChar(s, i, "\\u", 1);
      assert s[i + 2..i + 6] == digits;
      HexRead(digits, values);
  }

  lemma HexIsFour(digits: string, values: seq<nat>, quote: char)
    requires ValidPiece(Hex(digits, values), quote)
    ensures |digits| == 4 && ValidPiece(Hex(digits, values), '"')
    ensures PieceValue(Hex(digits, values), quote) == PieceValue(Hex(digits, values), '"')
  {
  }

  lemma EscapeRead(c: char, quote: char)
    requires IsQuote(quote) && c != 'u'
    ensures Unescaped(c, quote) == PieceValue(Escape(c), quote)
  {
  }

  lemma {:induction false} PiecesRead(s: string, i: nat, pieces: seq<Piece>, quote: char, acc: string)
    requires At(s, i, PiecesText(pieces) + [quote]) && IsQuote(quote) && ValidPieces(pieces, quote)
    ensures StringBody(s, i, quote, acc)
         == Read(true, acc + PiecesValue(pieces, quote), i + |PiecesText(pieces)| + 1)
    decreases |pieces|
  {
    hide StringBody, At, PieceText, PieceValue;
    if pieces == [] {
      StringEnds(s, i, quote, acc);
    } else {
      var p, rest := pieces[0], pieces[1..];
      assert PiecesText(pieces) + [quote] == PieceText(p) + (PiecesText(rest) + [quote]);
      AtSplit(s, i, PieceText(p), PiecesText(rest) + [quote]);
      PieceRead(s, i, p, quote, acc);
      PiecesRead(s, i + |PieceText(p)|, rest, quote, acc + PieceValue(p, quote));
      assert acc + PieceValue(p, quote) + PiecesValue(rest, quote) == acc + PiecesValue(pieces, quote);
    }
  }

  lemma StringEnds(s: string, i: nat, quote: char, acc: string)
    requires At(s, i, PiecesText([]) + [quote])
    ensures StringBody(s, i, quote, acc) == Read(true, acc + PiecesValue([], quote), i + |PiecesText([])| + 1)
  {
    assert PiecesText([]) + [quote] == [quote];
    AtChar(s, i, [quote], 0);
    assert acc + "" == acc;
  }

  /** A quoted string reads as the characters that its pieces stand for. */
  lemma QuotedRead(s: string, i: nat, quote: char, pieces: seq<Piece>)
    requires At(s, i, QuotedText(quote, pieces)) && IsQuote(quote) && ValidPieces(pieces, quote)
    ensures ParseString(s, i) == Read(true, PiecesValue(pieces, quote), i + |QuotedText(quote, pieces)|)
    ensures i < |s| && Solid(s[i])
  {
    hide StringBody, Match;
    AtSplit(s, i, [quote], PiecesText(pieces) + [quote]);
    AtChar(s, i, [quote], 0);
    assert SkipSpace(s, i) == i;
    PiecesRead(s, i + 1, pieces, quote, "");
    assert "" + PiecesValue(pieces, quote) == PiecesValue(pieces, quote);
    if quote == '"' {
      MatchHere(s, i, "\"");
    } else {
      MatchFails(s, i, "\"");
    }
  }

  // Behind a gap

  lemma GapString(s: string, i: nat, g: Gap)
    requires ValidGap(g) && At(s, i, GapText(g))
    requires i + |GapText(g)| < |s| && Solid(s[i + |GapText(g)|])
    ensures ParseString(s, i) == ParseString(s, i + |GapText(g)|)
  {
    hide Match, StringBody;
    GapMatch(s, i, g, "\"");
  }

  lemma GapValue(s: string, i: nat, g: Gap)
    requires ValidGap(g) && At(s, i, GapText(g))
    requires i + |GapText(g)| < |s| && Solid(s[i + |GapText(g)|])
    ensures ParseValue(s, i) == ParseValue(s, i + |GapText(g)|)
  {
    hide ParseString, ParseNumber, ParseBool, ParseNull, ParseArray, ParseObject;
    GapString(s, i, g);
  }

  lemma GapElements(s: string, i: nat, g: Gap, acc: seq<Value>)
    requires ValidGap(g) && At(s, i, GapText(g))
    requires i + |GapText(g)| < |s| && Solid(s[i + |GapText(g)|])
    ensures ParseElements(s, i, acc) == ParseElements(s, i + |GapText(g)|, acc)
  {
    hide ParseValue, Match;
    GapValue(s, i, g);
  }

  lemma GapMembers(s: string, i: nat, g: Gap, acc: map<string, Value>)
    requires ValidGap(g) && At(s, i, GapText(g))
    requires i + |GapText(g)| < |s| && Solid(s[i + |GapText(g)|])
    ensures ParseMembers(s, i, acc) == ParseMembers(s, i + |GapText(g)|, acc)
  {
    hide ParseValue, ParseString, Match;
    GapString(s, i, g);
  }

  predicate Delimiter(c: char) { c == ',' || c == ']' || c == '}' || c == ':' }

  /** After a gap and a delimiter's place: nothing there can continue a number. */
  lemma GapEndsNumber(s: string, i: nat, g: Gap)
    requires ValidGap(g) && At(s, i, GapText(g))
    requires i + |GapText(g)| < |s| && Delimiter(s[i + |GapText(g)|])
    ensures i < |s| && EndsNumber(s[i])
  {
    if g != [] {
      assert ValidItem(g[0]);
      AtSplit(s, i, ItemText(g[0]), GapText(g[1..]));
      AtChar(s, i, ItemText(g[0]), 0);
    }
  }

  /** The gap, then the delimiter. */
  lemma GapThen(s: string, i: nat, g: Gap, c: char, rest: string)
    requires ValidGap(g) && At(s, i, GapText(g) + ([c] + rest)) && Delimiter(c)
    ensures var q := i + |GapText(g)|;
      && At(s, i, GapText(g)) && q < |s| && s[q] == c && At(s, q + 1, rest)
      && Match(s, i, [c]) == Read(true, (), q + 1) && Match(s, q, [c]) == Read(true, (), q + 1)
      && EndsNumber(s[i])
  {
    hide Match;
    var q := i + |GapText(g)|;
    AtSplit(s, i, GapText(g), [c] + rest);
    AtSplit(s, q, [c], rest);
    AtChar(s, q, [c], 0);
    assert SkipSpace(s, q) == q;
    GapMatch(s, i, g, [c]);
    MatchHere(s, q, [c]);
    GapEndsNumber(s, i, g);
  }

  /** Another delimiter than the one that stands there. */
  lemma GapNot(s: string, i: nat, g: Gap, c: char)
    requires ValidGap(g) && At(s, i, GapText(g)) && Delimiter(c)
    requires i + |GapText(g)| < |s| && Solid(s[i + |GapText(g)|]) && s[i + |GapText(g)|] != c
    ensures Match(s, i, [c]) == Read(false, (), i + |GapText(g)|)
  {
    hide Match;
    GapMatch(s, i, g, [c]);
    MatchFails(s, i + |GapText(g)|, [c]);
  }

  // Values are read

  lemma TextStarts(x: Syntax)
    requires Valid(x) && x != Missing
    ensures TextOf(x) != "" && Solid(TextOf(x)[0]) && !Delimiter(TextOf(x)[0])
  {
    match x
    case Num(sign, whole, point, fraction, exponent) =>
      hide ScaleText;
      assert whole == "" ==> point;
    case _ =>
  }

  lemma NumRead(s: string, i: nat, sign: string, whole: string, point: bool, fraction: string,
                exponent: Option<Exponent>)
    requires ValidLoose(sign, whole, point, fraction)
    requires At(s, i, LooseToken(sign, whole, point, fraction, exponent))
    requires var end := i + |LooseToken(sign, whole, point, fraction, exponent)|; end < |s| && EndsNumber(s[end])
    ensures ParseValue(s, i) == Read(true, Number(TokenValue(sign == "-", whole, fraction, exponent)),
                                     i + |LooseToken(sign, whole, point, fraction, exponent)|)
  {
    hide LooseToken, ValidLoose, TokenValue, ScanDecimal, ParseString, ParseBool, ParseNull, ParseArray, ParseObject,
         At;
    LooseTokenRead(s, i, sign, whole, point, fraction, exponent);
    NotAString(s, i);
  }

  lemma WordRead(s: string, i: nat, x: Syntax)
    requires (x.True? || x.False? || x.Nil?) && At(s, i, TextOf(x))
    ensures ParseValue(s, i) == Read(true, Meaning(x), i + |TextOf(x)|)
  {
    hide MatchFrom, ScanDecimal, ParseString, ParseArray, ParseObject;
    AtChar(s, i, TextOf(x), 0);
    assert SkipSpace(s, i) == i;
    NotAString(s, i);
    NotANumber(s, i);
    match x
    case True => MatchHere(s, i, "true");
    case False =>
      MatchFails(s, i, "true");
      MatchHere(s, i, "false");
    case Nil =>
      MatchFails(s, i, "true");
      MatchFails(s, i, "false");
      MatchHere(s, i, "null");
  }

  /** The main induction: at the text of a value, the parser reads what it means and stops right
      after it. */
  lemma {:induction false} ValueRead(s: string, i: nat, x: Syntax)
    requires Valid(x) && At(s, i, TextOf(x))
    requires i + |TextOf(x)| < |s| && EndsNumber(s[i + |TextOf(x)|])
    requires x == Missing ==> s[i] == ','
    ensures ParseValue(s, i) == Read(true, Meaning(x), i + |TextOf(x)|)
    decreases x, 0
  {
    match x
    case Str(quote, pieces) => StrRead(s, i, quote, pieces);
    case Num(sign, whole, point, fraction, exponent) => NumRead(s, i, sign, whole, point, fraction, exponent);
    case Missing => MissingValueIsNull(s, i);
    case Arr(elems) =>
      ArrRead(s, i, elems);
      ArrayIsValue(s, i);
    case Obj(members) =>
      ObjRead(s, i, members);
      ObjectIsValue(s, i);
    case _ => WordRead(s, i, x);
  }

  lemma StrRead(s: string, i: nat, quote: char, pieces: seq<Piece>)
    requires At(s, i, QuotedText(quote, pieces)) && IsQuote(quote) && ValidPieces(pieces, quote)
    ensures ParseValue(s, i) == Read(true, String(PiecesValue(pieces, quote)), i + |QuotedText(quote, pieces)|)
  {
    hide ParseString, ParseNumber, ParseBool, ParseNull, ParseArray, ParseObject, QuotedText;
    QuotedRead(s, i, quote, pieces);
  }

  lemma ArrayIsValue(s: string, i: nat)
    requires i < |s| && s[i] == '[' && ParseArray(s, i).ok
    ensures var a := ParseArray(s, i); ParseValue(s, i) == Read(true, Array(a.value), a.pos)
  {
    hide ParseString, ParseNumber, ParseBool, ParseNull, ParseArray, ParseObject;
    assert SkipSpace(s, i) == i;
    BracketIsNoScalar(s, i);
  }

  lemma ObjectIsValue(s: string, i: nat)
    requires i < |s| && s[i] == '{' && ParseObject(s, i).ok
    ensures var o := ParseObject(s, i); ParseValue(s, i) == Read(true, Object(o.value), o.pos)
  {
    hide ParseString, ParseNumber, ParseBool, ParseNull, ParseArray, ParseObject;
    assert SkipSpace(s, i) == i;
    BracketIsNoScalar(s, i);
  }

  // Arrays

  lemma Opens(s: string, i: nat, bracket: char, rest: string)
    requires At(s, i, [bracket] + rest) && (bracket == '[' || bracket == '{')
    ensures i < |s| && s[i] == bracket && At(s, i + 1, rest)
    ensures Match(s, i, [bracket]) == Read(true, (), i + 1)
  {
    hide Match;
    AtSplit(s, i, [bracket], rest);
    AtChar(s, i, [bracket], 0);
    assert SkipSpace(s, i) == i;
    MatchHere(s, i, [bracket]);
  }

  /** Where a value with gaps around it stands, and what follows. */
  lemma Around(s: string, i: nat, before: Gap, x: Syntax, after: Gap, c: char, rest: string)
    requires ValidGap(before) && Valid(x) && ValidGap(after) && Delimiter(c)
    requires x == Missing ==> after == [] && c == ','
    requires At(s, i, GapText(before) + (TextOf(x) + (GapText(after) + ([c] + rest))))
    ensures var p := i + |GapText(before)|;
      var e := p + |TextOf(x)|;
      var q := e + |GapText(after)|;
      && At(s, i, GapText(before)) && At(s, p, TextOf(x)) && p < |s| && Solid(s[p])
      && (x != Missing ==> !Delimiter(s[p])) && (x == Missing ==> s[p] == ',')
      && e < |s| && EndsNumber(s[e]) && At(s, e, GapText(after))
      && q < |s| && s[q] == c && At(s, q + 1, rest)
      && Match(s, e, [c]) == Read(true, (), q + 1) && Match(s, q, [c]) == Read(true, (), q + 1)
  {
    hide TextOf, GapText, Match, At, Solid, EndsNumber;
    var p := i + |GapText(before)|;
    var e := p + |TextOf(x)|;
    AtSplit(s, i, GapText(before), TextOf(x) + (GapText(after) + ([c] + rest)));
    AtSplit(s, p, TextOf(x), GapText(after) + ([c] + rest));
    GapThen(s, e, after, c, rest);
    if x == Missing {
      NothingMissing();
    } else {
      TextStarts(x);
      AtChar(s, p, TextOf(x), 0);
    }
  }

  lemma NothingMissing()
    ensures TextOf(Missing) == "" && GapText([]) == "" && Solid(',')
  {
  }

  lemma {:induction false} ArrRead(s: string, i: nat, e: Elems)
    requires ValidElems(e) && At(s, i, "[" + ElemsText(e))
    ensures i < |s| && s[i] == '['
    ensures ParseArray(s, i) == Read(true, Elements(e), i + 1 + |ElemsText(e)|)
    decreases e, 1
  {
    hide ParseElements, ParseArray, Match, At, TextOf, GapText, Meaning, Valid, ValidGap, Solid;
    Opens(s, i, '[', ElemsText(e));
    if e.NoElem? {
      assert "]" + "" == "]";
      GapThen(s, i + 1, e.gap, ']', "");
      EmptyArray(s, i, i + 2 + |GapText(e.gap)|);
    } else {
      var p := ElementsBegin(s, i + 1, e);
      GapNot(s, i + 1, e.before, ']');
      ParseArrayEnters(s, i, i + 1, p);
      GapElements(s, i + 1, e.before, []);
      ElementsRead(s, i + 1, e, []);
      assert [] + Elements(e) == Elements(e);
    }
  }

  lemma EmptyArray(s: string, i: nat, end: nat)
    requires i < |s| && end <= |s|
    requires Match(s, i, "[") == Read(true, (), i + 1) && Match(s, i + 1, "]") == Read(true, (), end)
    ensures ParseArray(s, i) == Read(true, [], end)
  {
  }

  /** Where the first element stands. */
  lemma ElementsBegin(s: string, i: nat, e: Elems) returns (p: nat)
    requires ValidElems(e) && !e.NoElem? && At(s, i, ElemsText(e))
    ensures p == i + |GapText(e.before)| && p < |s| && Solid(s[p]) && s[p] != ']' && At(s, i, GapText(e.before))
    ensures ValidGap(e.before)
  {
    hide Match, At, TextOf, GapText, Valid, ValidGap, Solid;
    p := i + |GapText(e.before)|;
    match e
    case LastElem(before, v, after) =>
      assert "]" + "" == "]";
      Around(s, i, before, v, after, ']', "");
    case MoreElem(before, v, after, rest) => Around(s, i, before, v, after, ',', ElemsText(rest));
  }

  lemma {:induction false} ElementsRead(s: string, i: nat, e: Elems, acc: seq<Value>)
    requires ValidElems(e) && At(s, i, ElemsText(e))
    ensures i + |ElemsText(e)| <= |s|
    ensures ParseElements(s, i, acc) == Read(true, acc + Elements(e), i + |ElemsText(e)|)
    decreases e, 0
  {
    hide ParseElements, ParseValue, Match, At, TextOf, GapText, Meaning, Valid, ValidGap, Solid, EndsNumber;
    match e
    case NoElem(gap) =>
      assert "]" + "" == "]";
      GapThen(s, i, gap, ']', "");
      NoMoreElements(s, i, gap, acc);
      assert acc + [] == acc;
    case LastElem(before, v, after) =>
      assert "]" + "" == "]";
      Around(s, i, before, v, after, ']', "");
      var p := i + |GapText(before)|;
      GapElements(s, i, before, acc);
      ValueRead(s, p, v);
      ElementsTurn(s, p, acc, Meaning(v), p + |TextOf(v)|);
      GapNot(s, p + |TextOf(v)|, after, ',') by { BracketsAreSolid(); }
    case MoreElem(before, v, after, rest) =>
      Around(s, i, before, v, after, ',', ElemsText(rest));
      var p := i + |GapText(before)|;
      GapElements(s, i, before, acc);
      ValueRead(s, p, v);
      ElementsTurn(s, p, acc, Meaning(v), p + |TextOf(v)|);
      ElementsRead(s, p + |TextOf(v)| + |GapText(after)| + 1, rest, acc + [Meaning(v)]);
      assert acc + [Meaning(v)] + Elements(rest) == acc + Elements(e);
  }

  lemma BracketsAreSolid()
    ensures Solid(']') && Solid('}') && Solid(':')
  {
  }

  lemma NoMoreElements(s: string, i: nat, gap: Gap, acc: seq<Value>)
    requires ValidGap(gap) && At(s, i, GapText(gap)) && i + |GapText(gap)| < |s| && s[i + |GapText(gap)|] == ']'
    ensures ParseElements(s, i, acc) == Read(true, acc, i + |GapText(gap)| + 1)
  {
    hide ParseElements;
    GapElements(s, i, gap, acc);
    var p := i + |GapText(gap)|;
    assert SkipSpace(s, p) == p;
    TrailingCommaInArray(s, p, acc);
  }

  // Objects

  /** The key with its colon. */
  lemma KeyRead(s: string, i: nat, k: Key, rest: string)
    requires ValidKey(k) && At(s, i, KeyText(k) + rest)
    ensures var p := i + |GapText(k.before)|;
      var e := p + |QuotedText(k.quote, k.pieces)|;
      var q := i + |KeyText(k)|;
      && At(s, i, GapText(k.before)) && p < |s| && Solid(s[p]) && s[p] != '}'
      && e <= |s| && ParseString(s, i) == Read(true, PiecesValue(k.pieces, k.quote), e)
      && ParseString(s, p) == Read(true, PiecesValue(k.pieces, k.quote), e)
      && Match(s, e, ":") == Read(true, (), q) && q <= |s| && At(s, q, rest)
  {
    hide Match, At, GapText, PiecesText, ParseString, ValidGap, ValidPieces, PiecesValue, Solid;
    var p := i + |GapText(k.before)|;
    var own := QuotedText(k.quote, k.pieces);
    assert KeyText(k) + rest == GapText(k.before) + (own + (GapText(k.after) + (":" + rest)));
    AtSplit(s, i, GapText(k.before), own + (GapText(k.after) + (":" + rest)));
    AtSplit(s, p, own, GapText(k.after) + (":" + rest));
    AtChar(s, p, own, 0);
    QuotedRead(s, p, k.quote, k.pieces);
    GapString(s, i, k.before);
    GapThen(s, p + |own|, k.after, ':', rest);
  }

  lemma {:induction false} ObjRead(s: string, i: nat, m: Members)
    requires ValidMembers(m) && At(s, i, "{" + MembersText(m))
    ensures i < |s| && s[i] == '{'
    ensures ParseObject(s, i) == Read(true, Pairs(m, map[]), i + 1 + |MembersText(m)|)
    decreases m, 1
  {
    hide ParseMembers, ParseObject, ParseString, Match, At, TextOf, GapText, KeyText, Meaning, Valid, ValidGap, Solid,
         PiecesValue, ValidPieces, QuotedText;
    Opens(s, i, '{', MembersText(m));
    if m.NoMember? {
      assert "}" + "" == "}";
      GapThen(s, i + 1, m.gap, '}', "");
      EmptyObject(s, i, i + 2 + |GapText(m.gap)|);
    } else {
      KeyRead(s, i + 1, m.key, MembersTail(m));
      KeyOpens(s, i, m.key);
      MembersRead(s, i + 1, m, map[]);
    }
  }

  /** The first key: the object is not empty. */
  lemma KeyOpens(s: string, i: nat, k: Key)
    requires i < |s| && Match(s, i, "{") == Read(true, (), i + 1) && ValidKey(k) && At(s, i + 1, GapText(k.before))
    requires var p := i + 1 + |GapText(k.before)|; p < |s| && Solid(s[p]) && s[p] != '}'
    ensures ParseObject(s, i) == ParseMembers(s, i + 1, map[])
  {
    hide ParseMembers, ParseObject, Match, At, GapText, Solid;
    GapNot(s, i + 1, k.before, '}');
    ParseObjectEnters(s, i, i + 1, i + 1 + |GapText(k.before)|);
    GapMembers(s, i + 1, k.before, map[]);
  }

  /** What follows the first key. */
  function MembersTail(m: Members): string
    requires !m.NoMember?
  {
    if m.LostMember? then GapText(m.gap) + "}"
    else
      GapText(m.before) + (TextOf(m.value) + (GapText(m.after) +
        (if m.LastMember? then "}" else "," + MembersText(m.rest))))
  }

  lemma EmptyObject(s: string, i: nat, end: nat)
    requires i < |s| && end <= |s|
    requires Match(s, i, "{") == Read(true, (), i + 1) && Match(s, i + 1, "}") == Read(true, (), end)
    ensures ParseObject(s, i) == Read(true, map[], end)
  {
  }

  lemma NoMoreMembers(s: string, i: nat, gap: Gap, acc: map<string, Value>)
    requires ValidGap(gap) && At(s, i, GapText(gap)) && i + |GapText(gap)| < |s| && s[i + |GapText(gap)|] == '}'
    ensures ParseMembers(s, i, acc) == Read(true, acc, i + |GapText(gap)| + 1)
  {
    hide ParseMembers;
    GapMembers(s, i, gap, acc);
    var p := i + |GapText(gap)|;
    assert SkipSpace(s, p) == p;
    TrailingCommaInObject(s, p, acc);
  }

  /** No value in front of the closing brace. */
  lemma NoLastValue(s: string, i: nat, gap: Gap)
    requires ValidGap(gap) && At(s, i, GapText(gap)) && i + |GapText(gap)| < |s| && s[i + |GapText(gap)|] == '}'
    ensures ParseValue(s, i) == Read(false, Invalid, i + |GapText(gap)|)
  {
    hide ParseValue;
    GapValue(s, i, gap);
    NoValueHere(s, i + |GapText(gap)|);
  }

  lemma LostTurn(s: string, i: nat, acc: map<string, Value>, key: string, e: nat, q: nat, p: nat)
    requires i <= |s| && e <= |s| && q <= |s| && p <= |s|
    requires ParseString(s, i) == Read(true, key, e) && Match(s, e, ":") == Read(true, (), q)
    requires ParseValue(s, q) == Read(false, Invalid, p) && Match(s, p, "}") == Read(true, (), p + 1)
    ensures ParseMembers(s, i, acc) == Read(true, acc, p + 1)
  {
  }

  lemma {:induction false} MembersRead(s: string, i: nat, m: Members, acc: map<string, Value>)
    requires ValidMembers(m) && At(s, i, MembersText(m))
    ensures i + |MembersText(m)| <= |s|
    ensures ParseMembers(s, i, acc) == Read(true, Pairs(m, acc), i + |MembersText(m)|)
    decreases m, 0
  {
    hide ParseMembers, ParseValue, ParseString, Match, At, TextOf, GapText, KeyText, Meaning, Valid, ValidGap, Solid,
         EndsNumber, PiecesValue, ValidPieces, QuotedText;
    if m.NoMember? {
      assert "}" + "" == "}";
      GapThen(s, i, m.gap, '}', "");
      NoMoreMembers(s, i, m.gap, acc);
    } else if m.LostMember? {
      var q := i + |KeyText(m.key)|;
      KeyRead(s, i, m.key, MembersTail(m));
      assert "}" + "" == "}";
      GapThen(s, q, m.gap, '}', "");
      NoLastValue(s, q, m.gap);
      LostTurn(s, i, acc, PiecesValue(m.key.pieces, m.key.quote),
               i + |GapText(m.key.before)| + |QuotedText(m.key.quote, m.key.pieces)|, q, q + |GapText(m.gap)|);
    } else {
      var k, before, v, after := m.key, m.before, m.value, m.after;
      var key := PiecesValue(k.pieces, k.quote);
      KeyRead(s, i, k, MembersTail(m));
      var e := i + |GapText(k.before)| + |QuotedText(k.quote, k.pieces)|;
      var q := i + |KeyText(k)|;
      var p := q + |GapText(before)|;
      var end := p + |TextOf(v)|;
      if m.LastMember? {
        assert "}" + "" == "}";
        Around(s, q, before, v, after, '}', "");
      } else {
        Around(s, q, before, v, after, ',', MembersText(m.rest));
      }
      ValueRead(s, p, v);
      GapValue(s, q, before);
      MembersTurn(s, i, acc, key, e, q, Meaning(v), end);
      if m.LastMember? {
        GapNot(s, end, after, ',') by { BracketsAreSolid(); }
      } else {
        MembersRead(s, end + |GapText(after)| + 1, m.rest, acc[key := Meaning(v)]);
      }
    }
  }

  // Documents

  /** Whatever follows it, a document is read as what it means: every standard one, and every other
      that the grammar allows. */
  lemma DocumentIsRead(gap: Gap, m: Members, rest: string)
    requires ValidGap(gap) && ValidMembers(m)
    ensures var text := GapText(gap) + ("{" + MembersText(m));
      ParseObject(text + rest, 0) == Read(true, Pairs(m, map[]), |text|)
  {
    hide Match, At, GapText, MembersText, ParseMembers;
    var own := "{" + MembersText(m);
    var s := GapText(gap) + own + rest;
    assert At(s, 0, GapText(gap) + own) by { Prefix(GapText(gap) + own, rest); }
    AtSplit(s, 0, GapText(gap), own);
    ObjRead(s, |GapText(gap)|, m);
    GapMatch(s, 0, gap, "{");
  }

  lemma Prefix(own: string, rest: string)
    ensures At(own + rest, 0, own)
  {
    assert (own + rest)[0..0 + |own|] == own;
  }

  lemma ArrayIsRead(gap: Gap, e: Elems, rest: string)
    requires ValidGap(gap) && ValidElems(e)
    ensures var text := GapText(gap) + ("[" + ElemsText(e));
      ParseArray(text + rest, 0) == Read(true, Elements(e), |text|)
  {
    hide Match, At, GapText, ElemsText, ParseElements;
    var own := "[" + ElemsText(e);
    var s := GapText(gap) + own + rest;
    assert At(s, 0, GapText(gap) + own) by { Prefix(GapText(gap) + own, rest); }
    AtSplit(s, 0, GapText(gap), own);
    ArrRead(s, |GapText(gap)|, e);
    GapMatch(s, 0, gap, "[");
  }

  // Texts that are no documents

  lemma {:induction false} PiecesGoOn(s: string, i: nat, pieces: seq<Piece>, quote: char, acc: string, rest: string)
    requires At(s, i, PiecesText(pieces) + rest) && IsQuote(quote) && ValidPieces(pieces, quote)
    ensures i + |PiecesText(pieces)| <= |s|
    ensures StringBody(s, i, quote, acc)
         == StringBody(s, i + |PiecesText(pieces)|, quote, acc + PiecesValue(pieces, quote))
    decreases |pieces|
  {
    hide StringBody, At, PieceText, PieceValue;
    AtSplit(s, i, PiecesText(pieces), rest);
    AtFits(s, i, PiecesText(pieces));
    if pieces == [] {
      assert acc + "" == acc;
    } else {
      var p, more := pieces[0], pieces[1..];
      assert PiecesText(pieces) + rest == PieceText(p) + (PiecesText(more) + rest);
      AtSplit(s, i, PieceText(p), PiecesText(more) + rest);
      PieceRead(s, i, p, quote, acc);
      PiecesGoOn(s, i + |PieceText(p)|, more, quote, acc + PieceValue(p, quote), rest);
      assert acc + PieceValue(p, quote) + PiecesValue(more, quote) == acc + PiecesValue(pieces, quote);
    }
  }

  lemma AtFits(s: string, i: nat, t: string)
    requires At(s, i, t)
    ensures i + |t| <= |s|
  {
  }

  predicate CutOff(cut: string) { cut == "" || cut == "\\" || (|cut| < 6 && "\\u" <= cut) }

  /** A string that is not closed, also one cut off inside an escape, is no string. */
  lemma UnclosedString(s: string, i: nat, pieces: seq<Piece>, quote: char, cut: string)
    requires IsQuote(quote) && ValidPieces(pieces, quote) && CutOff(cut)
    requires i < |s| && s[i..] == [quote] + (PiecesText(pieces) + cut)
    ensures ParseString(s, i) == Read(false, "", |s|)
  {
    hide StringBody, Match, At, PiecesText, PiecesValue;
    WholeRest(s, i);
    AtSplit(s, i, [quote], PiecesText(pieces) + cut);
    AtChar(s, i, [quote], 0);
    PiecesGoOn(s, i + 1, pieces, quote, "", cut);
    AtSplit(s, i + 1, PiecesText(pieces), cut);
    CutEscape(s, i + 1 + |PiecesText(pieces)|, quote, "" + PiecesValue(pieces, quote), cut);
    assert SkipSpace(s, i) == i;
    if quote == '"' {
      MatchHere(s, i, "\"");
    } else {
      MatchFails(s, i, "\"");
    }
  }

  lemma WholeRest(s: string, i: nat)
    requires i <= |s|
    ensures At(s, i, s[i..])
  {
    assert s[i..i + |s[i..]|] == s[i..];
  }

  lemma CutEscape(s: string, i: nat, quote: char, acc: string, cut: string)
    requires IsQuote(quote) && At(s, i, cut) && i + |cut| == |s| && CutOff(cut)
    ensures StringBody(s, i, quote, acc) == Read(false, "", |s|)
  {
    if cut != "" {
      AtChar(s, i, cut, 0);
      if |cut| > 1 {
        AtChar(s, i, cut, 1);
      }
    }
  }

  /** The characters from k on are hexadecimal digits with these values. */
  predicate HexFrom(t: string, d: seq<nat>, k: nat) {
    |t| == |d| && forall j :: k <= j < |t| ==> d[j] < 16 && (t[j] == LOWER[d[j]] || t[j] == UPPER[d[j]])
  }

  /** Four characters behind `\u` that are not four digits: a sign or `0x` in front of fewer digits is
      taken along, and characters that begin no number stand for nothing. */
  lemma OddUnicodeEscape(t: string, d: seq<nat>)
    requires |t| == |d| == 4
    ensures (t[0] == '-' || t[0] == '+') && HexFrom(t, d, 1) ==>
      var n: int := 256 * d[1] + 16 * d[2] + d[3];
      UnicodeEscape(t) == [((if t[0] == '-' then 0 - n else n) % 256) as char]
    ensures t[0] == '0' && (t[1] == 'x' || t[1] == 'X') && HexFrom(t, d, 2) ==>
      UnicodeEscape(t) == [(16 * d[2] + d[3]) as char]
    ensures !IsSpace(t[0]) && t[0] != '-' && t[0] != '+' && t[0] !in LOWER && t[0] !in UPPER ==>
      UnicodeEscape(t) == ""
  {
    hide UnicodeEscape, HexFrom;
    if (t[0] == '-' || t[0] == '+') && HexFrom(t, d, 1) {
      SignedEscape(t, d);
    }
    if t[0] == '0' && (t[1] == 'x' || t[1] == 'X') && HexFrom(t, d, 2) {
      PrefixedEscape(t, d);
    }
    if !IsSpace(t[0]) && t[0] != '-' && t[0] != '+' && t[0] !in LOWER && t[0] !in UPPER {
      NoEscape(t);
    }
  }

  lemma NoEscape(t: string)
    requires |t| == 4 && !IsSpace(t[0]) && t[0] != '-' && t[0] != '+' && t[0] !in LOWER && t[0] !in UPPER
    ensures UnicodeEscape(t) == ""
  {
    NoHexDigit(t[0]);
    assert SkipSpace(t, 0) == 0;
    hide HexDigit;
  }

  lemma NoHexDigit(c: char)
    requires c !in LOWER && c !in UPPER
    ensures HexDigit(c) < 0 && c != '0'
  {
  }

  lemma SignedEscape(t: string, d: seq<nat>)
    requires |t| == 4 && (t[0] == '-' || t[0] == '+') && HexFrom(t, d, 1)
    ensures var n: int := 256 * d[1] + 16 * d[2] + d[3];
      UnicodeEscape(t) == [((if t[0] == '-' then 0 - n else n) % 256) as char]
  {
    hide HexDigit, HexRun, HexFrom;
    DigitsFrom(t, d, 1);
    HexRunOfThree(t, d);
    assert SkipSpace(t, 0) == 0;
  }

  lemma DigitsFrom(t: string, d: seq<nat>, k: nat)
    requires HexFrom(t, d, k)
    ensures |t| == |d| && forall j :: k <= j < |t| ==> HexDigit(t[j]) == d[j] && t[j] != 'x' && t[j] != 'X'
  {
    forall j | k <= j < |t| ensures HexDigit(t[j]) == d[j] && t[j] != 'x' && t[j] != 'X' {
      HexDigitOf(t[j], d[j]);
    }
  }

  lemma HexRunOfThree(t: string, d: seq<nat>)
    requires |t| == |d| == 4 && forall k :: 1 <= k < 4 ==> HexDigit(t[k]) == d[k]
    ensures HexRun(t, 1, 0) == 256 * d[1] + 16 * d[2] + d[3]
  {
    hide HexDigit;
    var b := 16 * d[1] + d[2];
    var c := 16 * b + d[3];
    assert HexRun(t, 4, c) == c;
    assert HexRun(t, 3, b) == HexRun(t, 4, c);
    assert HexRun(t, 2, d[1]) == HexRun(t, 3, b);
  }

  lemma PrefixedEscape(t: string, d: seq<nat>)
    requires |t| == 4 && t[0] == '0' && (t[1] == 'x' || t[1] == 'X') && HexFrom(t, d, 2)
    ensures UnicodeEscape(t) == [(16 * d[2] + d[3]) as char]
  {
    hide HexRun, HexFrom;
    DigitsFrom(t, d, 2);
    HexRunOfTwo(t, d);
    assert SkipSpace(t, 0) == 0;
  }

  lemma HexRunOfTwo(t: string, d: seq<nat>)
    requires |t| == |d| == 4 && HexDigit(t[2]) == d[2] && HexDigit(t[3]) == d[3]
    ensures HexRun(t, 2, 0) == 16 * d[2] + d[3]
  {
    hide HexDigit;
    var c := 16 * d[2] + d[3];
    assert HexRun(t, 4, c) == c;
    assert HexRun(t, 3, d[2]) == HexRun(t, 4, c);
  }
}

/** Parsing the text of a tree gives the tree back. */
module JsonRoundTrip {
  import opened JsonTree
  import opened Scan = JsonScan
  import opened Text = JsonText
  import opened Texts
  import opened Decimals
  import opened JsonNumbers

  // White space and fixed tokens

  ghost predicate Spaces(s: string, i: nat, j: nat) {
    i <= j <= |s| && forall k :: i <= k < j ==> IsSpace(s[k])
  }

  lemma {:induction false} SkipSpaceOver(s: string, i: nat, j: nat)
    requires Spaces(s, i, j) && (j < |s| ==> !IsSpace(s[j]))
    ensures SkipSpace(s, i) == j
    decreases j - i
  {
    if i < j {
      assert IsSpace(s[i]);
      SkipSpaceOver(s, i + 1, j);
    }
  }

  lemma {:induction false} MatchRun(s: string, i: nat, pattern: string, k: nat)
    requires k <= |pattern| && At(s, i, pattern[k..])
    ensures MatchFrom(s, i, pattern, k) == Read(true, (), i + |pattern| - k)
    decreases |pattern| - k
  {
    if k < |pattern| {
      AtSplit(s, i, [pattern[k]], pattern[k + 1..]) by {
        assert [pattern[k]] + pattern[k + 1..] == pattern[k..];
      }
      AtChar(s, i, [pattern[k]], 0);
      MatchRun(s, i + 1, pattern, k + 1);
    }
  }

  lemma MatchHere(s: string, i: nat, pattern: string)
    requires i <= |s| && At(s, SkipSpace(s, i), pattern)
    ensures Match(s, i, pattern) == Read(true, (), SkipSpace(s, i) + |pattern|)
  {
    assert pattern[0..] == pattern;
    MatchRun(s, SkipSpace(s, i), pattern, 0);
  }

  /** A first character that is neither the pattern's nor a slash: nothing is consumed but space. */
  lemma MatchFails(s: string, i: nat, pattern: string)
    requires i <= |s| && pattern != ""
    requires SkipSpace(s, i) < |s| && s[SkipSpace(s, i)] != pattern[0] && s[SkipSpace(s, i)] != '/'
    ensures Match(s, i, pattern) == Read(false, (), SkipSpace(s, i))
  {
  }

  /** Skipping white space twice is skipping it once. */
  lemma SkipSpaceTwice(s: string, i: nat)
    requires i <= |s|
    ensures SkipSpace(s, SkipSpace(s, i)) == SkipSpace(s, i)
  {
  }

  // Strings

  /** How one escaped character reads: as itself, as a two-character escape, or as `\u00xx`. */
  predicate EscapesTo(e: string, c: char) {
    || (e == [c] && c != '"' && c != '\\')
    || (|e| == 2 && e[0] == '\\' && e[1] != 'u' && Unescaped(e[1], '"') == [c])
    || (|e| == 6 && e[0] == '\\' && e[1] == 'u' && UnicodeEscape(e[2..]) == [c])
  }

  lemma EscapeCharReads(c: char)
    ensures EscapesTo(EscapeChar(c), c)
  {
    if |EscapeChar(c)| == 6 {
      ControlEscape(c);
    }
  }

  lemma StringStep(s: string, i: nat, e: string, c: char, acc: string)
    requires At(s, i, e) && EscapesTo(e, c)
    ensures StringBody(s, i, '"', acc) == StringBody(s, i + |e|, '"', acc + [c])
  {
    AtChar(s, i, e, 0);
    if |e| == 2 {
      AtChar(s, i, e, 1);
    } else if |e| == 6 {
      AtChar(s, i, e, 1);
      assert s[i..i + 6][2..] == s[i + 2..i + 6];
    }
  }

  lemma ControlEscape(c: char)
    requires |EscapeChar(c)| == 6
    ensures UnicodeEscape(EscapeChar(c)[2..]) == [c]
  {
    var h, l := LowerHex(c as nat / 16), LowerHex(c as nat % 16);
    var t := EscapeChar(c)[2..];
    assert t == ['0', '0', h, l];
    assert SkipSpace(t, 0) == 0;
    assert HexDigit(h) == c as int / 16 && HexDigit(l) == c as int % 16;
    assert HexRun(t, 4, c as nat) == c as nat;
    assert HexRun(t, 3, c as nat / 16) == c as nat;
    assert HexRun(t, 2, 0) == c as nat;
    assert HexRun(t, 1, 0) == c as nat;
  }

  lemma EscapeStep(text: string, rest: string)
    requires text != ""
    ensures Escape(text) + rest == EscapeChar(text[0]) + (Escape(text[1..]) + rest)
    ensures |Escape(text)| == |EscapeChar(text[0])| + |Escape(text[1..])|
  {
    hide EscapeChar;
    assert Escape(text) == EscapeChar(text[0]) + Escape(text[1..]);
    hide Escape;
  }

  lemma EmptyStringRead(s: string, i: nat, acc: string)
    requires At(s, i, Escape("") + "\"")
    ensures StringBody(s, i, '"', acc) == Read(true, acc, i + |Escape("")| + 1)
  {
    assert Escape("") + "\"" == "\"";
    AtChar(s, i, "\"", 0);
  }

  lemma {:induction false} StringBodyRead(s: string, i: nat, text: string, acc: string)
    requires At(s, i, Escape(text) + "\"")
    ensures StringBody(s, i, '"', acc) == Read(true, acc + text, i + |Escape(text)| + 1)
    decreases |text|
  {
    hide *;
    if text == "" {
      EmptyStringRead(s, i, acc);
      assert acc + text == acc;
    } else {
      var e, rest := EscapeChar(text[0]), Escape(text[1..]) + "\"";
      EscapeStep(text, "\"");
      AtSplit(s, i, e, rest);
      EscapeCharReads(text[0]);
      StringStep(s, i, e, text[0], acc);
      StringBodyRead(s, i + |e|, text[1..], acc + [text[0]]);
      assert acc + [text[0]] + text[1..] == acc + text;
    }
  }

  function Quoted(text: string): string { "\"" + Escape(text) + "\"" }

  lemma StringRead(s: string, i: nat, text: string)
    requires i <= |s| && At(s, SkipSpace(s, i), Quoted(text))
    ensures ParseString(s, i) == Read(true, text, SkipSpace(s, i) + |Quoted(text)|)
  {
    var j := SkipSpace(s, i);
    assert Quoted(text) == "\"" + (Escape(text) + "\"");
    AtSplit(s, j, "\"", Escape(text) + "\"");
    MatchHere(s, i, "\"");
    StringBodyRead(s, j + 1, text, "");
    assert "" + text == text;
  }

  lemma NotAString(s: string, i: nat)
    requires i <= |s| && SkipSpace(s, i) < |s|
    requires var c := s[SkipSpace(s, i)]; c != '"' && c != '\'' && c != '/'
    ensures ParseString(s, i) == Read(false, "", SkipSpace(s, i))
  {
    MatchFails(s, i, "\"");
  }

  // Numbers

  lemma NotANumber(s: string, i: nat)
    requires i <= |s| && SkipSpace(s, i) < |s|
    requires var c := s[SkipSpace(s, i)]; !IsDigit(c) && c != '-' && c != '+' && c != '.'
    ensures ParseNumber(s, i).ok == false && ParseNumber(s, i).pos == SkipSpace(s, i)
  {
  }

  // Values

  /** What may follow a value in a printed text. */
  predicate Follows(s: string, i: nat) {
    i < |s| && (s[i] == ',' || s[i] == ' ')
  }

  lemma NumberValueRead(s: string, i: nat, n: Decimal)
    requires i <= |s| && At(s, SkipSpace(s, i), PrintNumber(n))
    requires Follows(s, SkipSpace(s, i) + |PrintNumber(n)|)
    ensures ParseValue(s, i) == Read(true, Number(Rounded(n)), SkipSpace(s, i) + |PrintNumber(n)|)
  {
    hide PrintNumber, Rounded, ScanDecimal, SkipSpace, At, ParseString;
    var j := SkipSpace(s, i);
    SkipSpaceTwice(s, i);
    NumberChars(n);
    AtChar(s, j, PrintNumber(n), 0);
    NumberRead(s, j, n);
    NotAString(s, i);
  }

  lemma ScalarRead(s: string, i: nat, v: Value)
    requires !v.Array? && !v.Object?
    requires i <= |s| && At(s, SkipSpace(s, i), Scalar(v))
    requires Follows(s, SkipSpace(s, i) + |Scalar(v)|)
    ensures ParseValue(s, i) == Read(true, Normal(v), SkipSpace(s, i) + |Scalar(v)|)
  {
    hide PrintNumber, Rounded, ScanDecimal;
    var j := SkipSpace(s, i);
    SkipSpaceTwice(s, i);
    AtChar(s, j, Scalar(v), 0);
    match v
    case String(text) => StringRead(s, i, text);
    case Number(n) => NumberValueRead(s, i, n);
    case Boolean(flag) =>
      NotAString(s, i);
      NotANumber(s, j);
      if flag {
        MatchHere(s, j, "true");
      } else {
        MatchFails(s, j, "true");
        MatchHere(s, j, "false");
      }
    case _ =>
      NotAString(s, i);
      NotANumber(s, j);
      MatchFails(s, j, "true");
      MatchFails(s, j, "false");
      MatchHere(s, j, "null");
  }

  /** At an opening bracket the first four alternatives of `Value::parse` leave the stream alone. */
  lemma BracketIsNoScalar(s: string, i: nat)
    requires i <= |s| && SkipSpace(s, i) < |s|
    requires s[SkipSpace(s, i)] == '[' || s[SkipSpace(s, i)] == '{'
    ensures var j := SkipSpace(s, i);
      && ParseString(s, i) == Read(false, "", j)
      && !ParseNumber(s, j).ok && ParseNumber(s, j).pos == j
      && ParseBool(s, j) == Read(false, false, j)
      && ParseNull(s, j) == Read(false, (), j)
  {
    var j := SkipSpace(s, i);
    SkipSpaceTwice(s, i);
    NotAString(s, i);
    NotANumber(s, j);
    MatchFails(s, j, "true");
    MatchFails(s, j, "false");
    MatchFails(s, j, "null");
  }

  lemma TabsAreSpaces(s: string, i: nat, depth: nat)
    requires At(s, i, Tabs(depth))
    ensures Spaces(s, i, i + depth)
  {
    forall k | i <= k < i + depth ensures IsSpace(s[k]) {
      AtChar(s, i, Tabs(depth), k - i);
    }
  }

  /** From the n-th element's own text to the closing bracket. */
  function ElementChain(depth: nat, v: Value, n: nat, close: string): (r: string)
    requires v.Array? && n < |v.elems|
    decreases |v.elems| - n
  {
    Body(depth, v.elems[n])
    + (if n + 1 == |v.elems| then close
       else ",\n" + (Tabs(depth) + ElementChain(depth, v, n + 1, close)))
  }

  lemma {:induction false} ElementsAreChain(depth: nat, v: Value, n: nat, close: string)
    requires v.Array? && n < |v.elems|
    ensures PlainElements(depth, v, n) + close == Tabs(depth) + ElementChain(depth, v, n, close)
    decreases |v.elems| - n
  {
    hide Body, Tabs;
    var own := Body(depth, v.elems[n]);
    if n + 1 == |v.elems| {
      assert Tabs(depth) + own + close == Tabs(depth) + (own + close);
    } else {
      ElementsAreChain(depth, v, n + 1, close);
      RegroupElement(Tabs(depth), own, PlainElements(depth, v, n + 1), close);
    }
  }

  lemma RegroupElement(tabs: string, own: string, rest: string, close: string)
    ensures tabs + own + ",\n" + rest + close == tabs + (own + (",\n" + (rest + close)))
  {
  }

  function MemberHead(k: string): string { Quoted(k) + ": " }

  /** From the n-th key to the closing brace. */
  function MemberChain(depth: nat, v: Value, n: nat, close: string): (r: string)
    requires v.Object? && n < |Keys(v)|
    decreases |Keys(v)| - n
  {
    var k := Keys(v)[n];
    assert k in Keys(v);
    MemberHead(k)
    + (Body(depth, v.members[k])
       + (if n + 1 == |Keys(v)| then close
          else ",\n" + (Tabs(depth) + MemberChain(depth, v, n + 1, close))))
  }

  lemma {:induction false} MembersAreChain(depth: nat, v: Value, n: nat, close: string)
    requires v.Object? && n < |Keys(v)| && "" !in v.members
    ensures PlainMembers(depth, v, n) + close == Tabs(depth) + MemberChain(depth, v, n, close)
    decreases |Keys(v)| - n
  {
    var k := Keys(v)[n];
    assert k in Keys(v);
    var own := Body(depth, v.members[k]);
    HeadOfMember(depth, k);
    hide Body, Head, MemberHead, Tabs, Keys;
    if n + 1 == |Keys(v)| {
      RegroupLast(Tabs(depth), MemberHead(k), own, close);
    } else {
      MembersAreChain(depth, v, n + 1, close);
      Regroup(Tabs(depth), MemberHead(k), own, PlainMembers(depth, v, n + 1), close);
    }
  }

  lemma HeadOfMember(depth: nat, k: string)
    requires k != ""
    ensures Head(depth, k) == Tabs(depth) + MemberHead(k)
  {
  }

  lemma RegroupLast(tabs: string, head: string, own: string, close: string)
    ensures tabs + head + own + close == tabs + (head + (own + close))
  {
  }

  lemma Regroup(tabs: string, head: string, own: string, rest: string, close: string)
    ensures tabs + head + own + ",\n" + rest + close == tabs + (head + (own + (",\n" + (rest + close))))
  {
  }

  function Closing(depth: nat, bracket: char): string { " \n" + Tabs(depth) + [bracket] }

  /** After the last child: no comma, then the closing bracket. */
  lemma CloseRead(s: string, i: nat, depth: nat, bracket: char)
    requires At(s, i, Closing(depth, bracket)) && (bracket == ']' || bracket == '}')
    ensures var end := i + |Closing(depth, bracket)|;
      && Match(s, i, ",") == Read(false, (), end - 1)
      && Match(s, end - 1, [bracket]) == Read(true, (), end)
  {
    var end := i + |Closing(depth, bracket)|;
    AtSplit(s, i, " \n" + Tabs(depth), [bracket]);
    AtSplit(s, i, " \n", Tabs(depth));
    AtChar(s, i, " \n", 0);
    AtChar(s, i, " \n", 1);
    TabsAreSpaces(s, i + 2, depth);
    AtChar(s, end - 1, [bracket], 0);
    SkipSpaceOver(s, i, end - 1);
    SkipSpaceOver(s, end - 1, end - 1);
    MatchFails(s, i, ",");
    MatchHere(s, end - 1, [bracket]);
  }

  /** Between two children: the comma, then white space up to the next child. */
  lemma SeparatorRead(s: string, i: nat, depth: nat, next: string)
    requires At(s, i, ",\n" + (Tabs(depth) + next)) && next != "" && !IsSpace(next[0])
    ensures Match(s, i, ",") == Read(true, (), i + 1)
    ensures SkipSpace(s, i + 1) == i + 2 + depth && At(s, i + 2 + depth, next)
  {
    AtSplit(s, i, ",\n", Tabs(depth) + next);
    AtSplit(s, i + 2, Tabs(depth), next);
    AtChar(s, i, ",\n", 0);
    AtChar(s, i, ",\n", 1);
    AtChar(s, i + 2 + depth, next, 0);
    TabsAreSpaces(s, i + 2, depth);
    SkipSpaceOver(s, i, i);
    assert At(s, i, ",") by { assert s[i..i + 1] == ","; }
    MatchHere(s, i, ",");
    SkipSpaceOver(s, i + 1, i + 2 + depth);
  }

  lemma BodyStart(depth: nat, v: Value)
    ensures !IsSpace(Body(depth, v)[0])
  {
    match v
    case Number(n) => NumberChars(n);
    case _ =>
  }

  function NormalElems(v: Value, n: nat): seq<Value>
    requires v.Array? && n <= |v.elems|
    decreases |v.elems| - n
  {
    if n == |v.elems| then [] else [Normal(v.elems[n])] + NormalElems(v, n + 1)
  }

  lemma {:induction false} NormalElemsAll(v: Value, n: nat)
    requires v.Array? && n <= |v.elems|
    ensures NormalElems(v, n) == Normal(v).elems[n..]
    decreases |v.elems| - n
  {
    if n < |v.elems| {
      NormalElemsAll(v, n + 1);
      assert Normal(v).elems[n..] == [Normal(v).elems[n]] + Normal(v).elems[n + 1..];
    }
  }

  /** The pairs of the keys from the n-th on, added to acc one after the other. */
  function AddMembers(v: Value, n: nat, acc: map<string, Value>): map<string, Value>
    requires v.Object? && n <= |Keys(v)|
    decreases |Keys(v)| - n
  {
    if n == |Keys(v)| then acc
    else
      var k := Keys(v)[n];
      assert k in Keys(v);
      AddMembers(v, n + 1, acc[k := Normal(v.members[k])])
  }

  lemma {:induction false} AddMembersAt(v: Value, n: nat, acc: map<string, Value>, k: string)
    requires v.Object? && n <= |Keys(v)|
    ensures var r := AddMembers(v, n, acc);
      && (k in Keys(v)[n..] ==> k in r && k in v.members && r[k] == Normal(v.members[k]))
      && (k !in Keys(v)[n..] ==> (k in r <==> k in acc) && (k in r ==> r[k] == acc[k]))
    decreases |Keys(v)| - n
  {
    hide Normal, Keys;
    if n < |Keys(v)| {
      var k0 := Keys(v)[n];
      KeyOfMember(v, n);
      assert Keys(v)[n..] == [k0] + Keys(v)[n + 1..];
      AddMembersAt(v, n + 1, acc[k0 := Normal(v.members[k0])], k);
    }
  }

  lemma AddMembersAll(v: Value)
    requires v.Object?
    ensures AddMembers(v, 0, map[]) == Normal(v).members
  {
    hide AddMembers, Keys;
    var r := AddMembers(v, 0, map[]);
    forall k ensures (k in r <==> k in v.members) && (k in r ==> r[k] == Normal(v.members[k])) {
      AddMembersAt(v, 0, map[], k);
      KeysAreMembers(v, k);
    }
  }

  lemma KeysAreMembers(v: Value, k: string)
    requires v.Object?
    ensures k in Keys(v)[0..] <==> k in v.members
  {
    assert Keys(v)[0..] == Keys(v);
  }

  // One turn of the element and member loops

  lemma ElementsTurn(s: string, i: nat, acc: seq<Value>, v: Value, p: nat)
    requires i <= |s| && p <= |s| && ParseValue(s, i) == Read(true, v, p)
    ensures var comma := Match(s, p, ",");
      && (comma.ok ==> ParseElements(s, i, acc) == ParseElements(s, comma.pos, acc + [v]))
      && (!comma.ok ==>
          var close := Match(s, comma.pos, "]");
          ParseElements(s, i, acc) == Read(close.ok, acc + [v], close.pos))
  {
  }

  lemma MembersTurn(s: string, i: nat, acc: map<string, Value>, k: string, p: nat, q: nat, v: Value, r: nat)
    requires i <= |s| && p <= |s| && q <= |s| && r <= |s|
    requires ParseString(s, i) == Read(true, k, p) && Match(s, p, ":") == Read(true, (), q)
    requires ParseValue(s, q) == Read(true, v, r)
    ensures var comma := Match(s, r, ",");
      && (comma.ok ==> ParseMembers(s, i, acc) == ParseMembers(s, comma.pos, acc[k := v]))
      && (!comma.ok ==>
          var close := Match(s, comma.pos, "}");
          ParseMembers(s, i, acc) == Read(close.ok, acc[k := v], close.pos))
  {
  }

  lemma FollowsAt(s: string, i: nat, rest: string)
    requires At(s, i, rest) && rest != "" && (rest[0] == ',' || rest[0] == ' ')
    ensures Follows(s, i)
  {
    AtChar(s, i, rest, 0);
  }

  function ElementRest(depth: nat, v: Value, n: nat, close: string): string
    requires v.Array? && n < |v.elems|
  {
    if n + 1 == |v.elems| then close
    else ",\n" + (Tabs(depth) + ElementChain(depth, v, n + 1, close))
  }

  function MemberRest(depth: nat, v: Value, n: nat, close: string): string
    requires v.Object? && n < |Keys(v)|
  {
    if n + 1 == |Keys(v)| then close
    else ",\n" + (Tabs(depth) + MemberChain(depth, v, n + 1, close))
  }

  /** The main induction: at the text of a value, `Value::parse` reads that value and stops right
      after it. */
  lemma {:induction false} BodyRead(s: string, i: nat, depth: nat, v: Value)
    requires NoEmptyKey(v)
    requires i <= |s| && At(s, SkipSpace(s, i), Body(depth, v))
    requires Follows(s, SkipSpace(s, i) + |Body(depth, v)|)
    ensures ParseValue(s, i) == Read(true, Normal(v), SkipSpace(s, i) + |Body(depth, v)|)
    decreases v, 2, 0
  {
    var j := SkipSpace(s, i);
    match v
    case Array(elems) =>
      AtChar(s, j, Body(depth, v), 0);
      BracketIsNoScalar(s, i);
      SkipSpaceTwice(s, i);
      ArrayRead(s, j, depth, v);
    case Object(members) =>
      AtChar(s, j, Body(depth, v), 0);
      BracketIsNoScalar(s, i);
      SkipSpaceTwice(s, i);
      ObjectRead(s, j, depth, v);
    case _ => ScalarRead(s, i, v);
  }

  /** Right after an opening bracket, the white space before the first child. */
  lemma OpenRead(s: string, i: nat, open: string, depth: nat, rest: string)
    requires |open| == 2 && open[1] == '\n' && At(s, i, open + (Tabs(depth) + rest))
    requires !IsSpace(open[0]) && rest != "" && !IsSpace(rest[0])
    ensures Match(s, i, [open[0]]) == Read(true, (), i + 1)
    ensures SkipSpace(s, i + 1) == i + 2 + depth && At(s, i + 2 + depth, rest)
    ensures SkipSpace(s, i + 2 + depth) == i + 2 + depth
  {
    AtSplit(s, i, open, Tabs(depth) + rest);
    AtSplit(s, i + 2, Tabs(depth), rest);
    AtChar(s, i, open, 0);
    AtChar(s, i, open, 1);
    AtChar(s, i + 2 + depth, rest, 0);
    TabsAreSpaces(s, i + 2, depth);
    SkipSpaceOver(s, i, i);
    SkipSpaceOver(s, i + 1, i + 2 + depth);
    SkipSpaceOver(s, i + 2 + depth, i + 2 + depth);
    assert s[i..i + 1] == [open[0]];
    MatchHere(s, i, [open[0]]);
  }

  lemma {:induction false} ArrayRead(s: string, i: nat, depth: nat, v: Value)
    requires v.Array? && NoEmptyKey(v)
    requires i <= |s| && SkipSpace(s, i) == i && At(s, i, Body(depth, v))
    ensures ParseArray(s, i) == Read(true, Normal(v).elems, i + |Body(depth, v)|)
    decreases v, 1, 0
  {
    hide ParseElements, ParseArray, SkipSpace, Body, At, ElementChain, NormalElems, Closing, Tabs;
    var close := Closing(depth, ']');
    if |v.elems| == 0 {
      EmptyArrayBody(depth, v);
      EmptyArrayRead(s, i, depth);
      assert Normal(v).elems == [];
    } else {
      ArrayBody(depth, v);
      var chain := ElementChain(depth + 1, v, 0, close);
      ElementChainStart(depth + 1, v, 0, close);
      ElementChainNoClose(depth + 1, v, 0, close);
      NormalElemsAll(v, 0);
      assert [] + NormalElems(v, 0) == Normal(v).elems[0..] == Normal(v).elems;
      ArrayOpens(s, i, depth + 1, chain);
      ElementsRead(s, i + 3 + depth, depth + 1, v, 0, [], depth);
    }
  }

  lemma ParseArrayEnters(s: string, i: nat, p: nat, q: nat)
    requires i <= |s| && p <= |s| && q <= |s|
    requires Match(s, i, "[") == Read(true, (), p) && Match(s, p, "]") == Read(false, (), q)
    ensures ParseArray(s, i) == ParseElements(s, q, [])
  {
  }

  lemma ParseObjectEnters(s: string, i: nat, p: nat, q: nat)
    requires i <= |s| && p <= |s| && q <= |s|
    requires Match(s, i, "{") == Read(true, (), p) && Match(s, p, "}") == Read(false, (), q)
    ensures ParseObject(s, i) == ParseMembers(s, q, map[])
  {
  }

  lemma ArrayOpens(s: string, i: nat, depth: nat, chain: string)
    requires At(s, i, "[\n" + (Tabs(depth) + chain))
    requires chain != "" && !IsSpace(chain[0]) && chain[0] != ']' && chain[0] != '/'
    ensures SkipSpace(s, i + 2 + depth) == i + 2 + depth && At(s, i + 2 + depth, chain)
    ensures ParseArray(s, i) == ParseElements(s, i + 2 + depth, [])
  {
    hide ParseArray, ParseElements, At, Match, SkipSpace, Tabs;
    OpenRead(s, i, "[\n", depth, chain);
    AtChar(s, i + 2 + depth, chain, 0);
    MatchFails(s, i + 1, "]");
    ParseArrayEnters(s, i, i + 1, i + 2 + depth);
  }

  lemma ObjectOpens(s: string, i: nat, depth: nat, chain: string)
    requires At(s, i, "{\n" + (Tabs(depth) + chain))
    requires chain != "" && !IsSpace(chain[0]) && chain[0] != '}' && chain[0] != '/'
    ensures SkipSpace(s, i + 2 + depth) == i + 2 + depth && At(s, i + 2 + depth, chain)
    ensures ParseObject(s, i) == ParseMembers(s, i + 2 + depth, map[])
  {
    hide ParseObject, ParseMembers, At, Match, SkipSpace, Tabs;
    OpenRead(s, i, "{\n", depth, chain);
    AtChar(s, i + 2 + depth, chain, 0);
    MatchFails(s, i + 1, "}");
    ParseObjectEnters(s, i, i + 1, i + 2 + depth);
  }

  lemma EmptyArrayBody(depth: nat, v: Value)
    requires v.Array? && |v.elems| == 0
    ensures Body(depth, v) == "[\n" + (Tabs(depth) + "]")
  {
    assert PlainElements(depth + 1, v, 0) == "";
  }

  lemma EmptyArrayRead(s: string, i: nat, depth: nat)
    requires i <= |s| && At(s, i, "[\n" + (Tabs(depth) + "]"))
    ensures ParseArray(s, i) == Read(true, [], i + 3 + depth)
  {
    OpenRead(s, i, "[\n", depth, "]");
    MatchHere(s, i + 1, "]");
  }

  lemma ArrayBody(depth: nat, v: Value)
    requires v.Array? && |v.elems| > 0
    ensures Body(depth, v)
         == "[\n" + (Tabs(depth + 1) + ElementChain(depth + 1, v, 0, Closing(depth, ']')))
  {
    ElementsAreChain(depth + 1, v, 0, Closing(depth, ']'));
    assert Body(depth, v) == "[\n" + (PlainElements(depth + 1, v, 0) + Closing(depth, ']'));
  }

  lemma ElementChainNoClose(depth: nat, v: Value, n: nat, close: string)
    requires v.Array? && n < |v.elems|
    ensures ElementChain(depth, v, n, close) != ""
    ensures var c := ElementChain(depth, v, n, close)[0]; c != ']' && c != '/'
  {
    match v.elems[n]
    case Number(m) => NumberChars(m);
    case _ =>
  }

  lemma {:induction false} ElementsRead(s: string, i: nat, depth: nat, v: Value, n: nat, acc: seq<Value>,
                                        outer: nat)
    requires v.Array? && n < |v.elems| && NoEmptyKey(v)
    requires i <= |s| && At(s, SkipSpace(s, i), ElementChain(depth, v, n, Closing(outer, ']')))
    ensures ParseElements(s, i, acc)
         == Read(true, acc + NormalElems(v, n),
                 SkipSpace(s, i) + |ElementChain(depth, v, n, Closing(outer, ']'))|)
    decreases v, 0, |v.elems| - n
  {
    hide ParseElements, ParseValue, Match, SkipSpace, Body, At, ElementChain, ElementRest, NormalElems, Closing,
         Normal, Tabs;
    var close := Closing(outer, ']');
    var own := Body(depth, v.elems[n]);
    var rest := ElementRest(depth, v, n, close);
    var j := SkipSpace(s, i);
    ElementStep(depth, v, n, outer);
    AtSplit(s, j, own, rest);
    FollowsAt(s, j + |own|, rest);
    BodyRead(s, i, depth, v.elems[n]);
    ElementsTurn(s, i, acc, Normal(v.elems[n]), j + |own|);
    if n + 1 == |v.elems| {
      CloseRead(s, j + |own|, outer, ']');
    } else {
      var next := ElementChain(depth, v, n + 1, close);
      ElementChainStart(depth, v, n + 1, close);
      SeparatorRead(s, j + |own|, depth, next);
      ElementsRead(s, j + |own| + 1, depth, v, n + 1, acc + [Normal(v.elems[n])], outer);
      assert acc + [Normal(v.elems[n])] + NormalElems(v, n + 1) == acc + NormalElems(v, n);
    }
  }

  lemma ElementStep(depth: nat, v: Value, n: nat, outer: nat)
    requires v.Array? && n < |v.elems|
    ensures var close := Closing(outer, ']');
      var rest := ElementRest(depth, v, n, close);
      && ElementChain(depth, v, n, close) == Body(depth, v.elems[n]) + rest
      && rest != "" && (rest[0] == ',' || rest[0] == ' ')
      && (n + 1 == |v.elems| ==> rest == close && NormalElems(v, n) == [Normal(v.elems[n])])
      && (n + 1 < |v.elems| ==> rest == ",\n" + (Tabs(depth) + ElementChain(depth, v, n + 1, close)))
    ensures NormalElems(v, n) == [Normal(v.elems[n])] + NormalElems(v, n + 1)
  {
    assert NormalElems(v, |v.elems|) == [];
  }

  lemma ElementChainStart(depth: nat, v: Value, n: nat, close: string)
    requires v.Array? && n < |v.elems|
    ensures ElementChain(depth, v, n, close) != "" && !IsSpace(ElementChain(depth, v, n, close)[0])
  {
    BodyStart(depth, v.elems[n]);
  }

  lemma {:induction false} ObjectRead(s: string, i: nat, depth: nat, v: Value)
    requires v.Object? && NoEmptyKey(v)
    requires i <= |s| && SkipSpace(s, i) == i && At(s, i, Body(depth, v))
    ensures ParseObject(s, i) == Read(true, Normal(v).members, i + |Body(depth, v)|)
    decreases v, 1, 0
  {
    hide ParseMembers, ParseObject, SkipSpace, Body, At, MemberChain, AddMembers, Closing, Tabs;
    var close := Closing(depth, '}');
    if |Keys(v)| == 0 {
      EmptyObjectBody(depth, v);
      EmptyObjectRead(s, i, depth);
      assert v.members == map[];
      assert Normal(v).members == map[];
    } else {
      ObjectBody(depth, v);
      MemberChainStart(depth + 1, v, 0, close);
      AddMembersAll(v);
      ObjectOpens(s, i, depth + 1, MemberChain(depth + 1, v, 0, close));
      MembersRead(s, i + 3 + depth, depth + 1, v, 0, map[], depth);
    }
  }

  lemma EmptyObjectBody(depth: nat, v: Value)
    requires v.Object? && |Keys(v)| == 0
    ensures Body(depth, v) == "{\n" + (Tabs(depth) + "}")
  {
    assert PlainMembers(depth + 1, v, 0) == "";
  }

  lemma EmptyObjectRead(s: string, i: nat, depth: nat)
    requires i <= |s| && At(s, i, "{\n" + (Tabs(depth) + "}"))
    ensures ParseObject(s, i) == Read(true, map[], i + 3 + depth)
  {
    OpenRead(s, i, "{\n", depth, "}");
    MatchHere(s, i + 1, "}");
  }

  lemma ObjectBody(depth: nat, v: Value)
    requires v.Object? && |Keys(v)| > 0 && "" !in v.members
    ensures Body(depth, v)
         == "{\n" + (Tabs(depth + 1) + MemberChain(depth + 1, v, 0, Closing(depth, '}')))
  {
    hide PlainMembers, MemberChain, Keys;
    MembersAreChain(depth + 1, v, 0, Closing(depth, '}'));
    assert Body(depth, v) == "{\n" + (PlainMembers(depth + 1, v, 0) + Closing(depth, '}'));
  }

  lemma {:induction false} MembersRead(s: string, i: nat, depth: nat, v: Value, n: nat,
                                       acc: map<string, Value>, outer: nat)
    requires v.Object? && n < |Keys(v)| && NoEmptyKey(v)
    requires i <= |s| && At(s, SkipSpace(s, i), MemberChain(depth, v, n, Closing(outer, '}')))
    ensures ParseMembers(s, i, acc)
         == Read(true, AddMembers(v, n, acc),
                 SkipSpace(s, i) + |MemberChain(depth, v, n, Closing(outer, '}'))|)
    decreases v, 0, |Keys(v)| - n
  {
    hide *;
    MemberStep(depth, v, n, outer, acc);
    var close := Closing(outer, '}');
    var k := Keys(v)[n];
    var own := Body(depth, v.members[k]);
    var rest := MemberRest(depth, v, n, close);
    var acc' := acc[k := Normal(v.members[k])];
    var p := MemberTextRead(s, i, depth, k, v.members[k], rest);
    BodyRead(s, p, depth, v.members[k]);
    var r := p + 1 + |own|;
    MembersTurn(s, i, acc, k, p - 1, p, Normal(v.members[k]), r);
    if n + 1 == |Keys(v)| {
      CloseRead(s, r, outer, '}');
    } else {
      var next := MemberChain(depth, v, n + 1, close);
      MemberChainStart(depth, v, n + 1, close);
      SeparatorRead(s, r, depth, next);
      MembersRead(s, r + 1, depth, v, n + 1, acc', outer);
    }
  }

  /** A key, its colon, and the text of its value in front of the rest. */
  lemma MemberTextRead(s: string, i: nat, depth: nat, k: string, v: Value, rest: string) returns (p: nat)
    requires rest != "" && (rest[0] == ',' || rest[0] == ' ')
    requires i <= |s| && At(s, SkipSpace(s, i), MemberHead(k) + (Body(depth, v) + rest))
    ensures p == SkipSpace(s, i) + |MemberHead(k)| - 1 && p < |s|
    ensures ParseString(s, i) == Read(true, k, p - 1) && Match(s, p - 1, ":") == Read(true, (), p)
    ensures SkipSpace(s, p) == p + 1 && At(s, p + 1, Body(depth, v))
    ensures Follows(s, p + 1 + |Body(depth, v)|) && At(s, p + 1 + |Body(depth, v)|, rest)
  {
    hide *;
    var own := Body(depth, v);
    p := KeyRead(s, i, k, own + rest);
    AtSplit(s, p + 1, own, rest);
    FollowsAt(s, p + 1 + |own|, rest);
    BlankBeforeBody(s, p, depth, v);
  }

  lemma MemberStep(depth: nat, v: Value, n: nat, outer: nat, acc: map<string, Value>)
    requires v.Object? && n < |Keys(v)| && NoEmptyKey(v)
    ensures Keys(v)[n] in v.members
    ensures NoEmptyKey(v.members[Keys(v)[n]])
    ensures var close := Closing(outer, '}');
      var rest := MemberRest(depth, v, n, close);
      var k := Keys(v)[n];
      && MemberChain(depth, v, n, close) == MemberHead(k) + (Body(depth, v.members[k]) + rest)
      && rest != "" && (rest[0] == ',' || rest[0] == ' ')
      && AddMembers(v, n, acc) == AddMembers(v, n + 1, acc[k := Normal(v.members[k])])
      && (n + 1 == |Keys(v)| ==> rest == close && AddMembers(v, n, acc) == acc[k := Normal(v.members[k])])
      && (n + 1 < |Keys(v)| ==> rest == ",\n" + (Tabs(depth) + MemberChain(depth, v, n + 1, close)))
  {
    assert Keys(v)[n] in Keys(v);
  }

  lemma MemberChainStart(depth: nat, v: Value, n: nat, close: string)
    requires v.Object? && n < |Keys(v)|
    ensures MemberChain(depth, v, n, close) != "" && MemberChain(depth, v, n, close)[0] == '"'
    ensures !IsSpace(MemberChain(depth, v, n, close)[0])
  {
  }

  lemma BlankBeforeBody(s: string, p: nat, depth: nat, v: Value)
    requires p < |s| && IsSpace(s[p]) && At(s, p + 1, Body(depth, v))
    ensures SkipSpace(s, p) == p + 1
  {
    BodyStart(depth, v);
    AtChar(s, p + 1, Body(depth, v), 0);
    SkipSpaceOver(s, p, p + 1);
  }

  /** The key, the colon, and the blank before the value. */
  lemma KeyRead(s: string, i: nat, k: string, rest: string) returns (p: nat)
    requires i <= |s| && At(s, SkipSpace(s, i), MemberHead(k) + rest)
    ensures p == SkipSpace(s, i) + |MemberHead(k)| - 1
    ensures ParseString(s, i) == Read(true, k, p - 1)
    ensures Match(s, p - 1, ":") == Read(true, (), p)
    ensures p < |s| && IsSpace(s[p]) && At(s, p + 1, rest)
  {
    hide Quoted, At, Match, ParseString, SkipSpace;
    var j := SkipSpace(s, i);
    p := j + |Quoted(k)| + 1;
    AtSplit(s, j, MemberHead(k), rest);
    AtSplit(s, j, Quoted(k), ": ");
    StringRead(s, i, k);
    ColonRead(s, p - 1);
  }

  lemma ColonRead(s: string, i: nat)
    requires At(s, i, ": ")
    ensures i + 1 < |s| && Match(s, i, ":") == Read(true, (), i + 1) && IsSpace(s[i + 1])
  {
    AtChar(s, i, ": ", 0);
    AtChar(s, i, ": ", 1);
    SkipSpaceOver(s, i, i);
    assert s[i..i + 1] == ":";
    MatchHere(s, i, ":");
  }

  /** A finished text is the value's own text and one blanked separator. */
  lemma JsonStarts(v: Value)
    requires (v.Array? || v.Object?)
    ensures At(Json(v), 0, Body(0, v)) && SkipSpace(Json(v), 0) == 0 && |Json(v)| == |Body(0, v)| + 2
    ensures Json(v) == Body(0, v) + " \n"
  {
    hide Body, Json;
    JsonIsPlain(v);
    BodyStart(0, v);
    BeforeSeparator(Json(v), Body(0, v)) by { PlainAtTop(v); }
  }

  lemma PlainAtTop(v: Value)
    ensures Plain(0, "", v) == Body(0, v)
  {
    hide Body;
    assert Head(0, "") == "";
  }

  lemma BeforeSeparator(s: string, own: string)
    requires s == own + " \n" && own != "" && !IsSpace(own[0])
    ensures At(s, 0, own) && SkipSpace(s, 0) == 0
  {
    assert s[0..0 + |own|] == own;
    assert s[0] == own[0];
  }

  /** Round trip of objects: the printed text parses, and to the same tree. */
  lemma ObjectRoundTrip(v: Value)
    requires v.Object? && NoEmptyKey(v)
    ensures ParseObject(Json(v), 0) == Read(true, Normal(v).members, |Json(v)| - 2)
  {
    hide *;
    JsonStarts(v);
    ObjectRead(Json(v), 0, 0, v);
  }

  /** Round trip of arrays. */
  lemma ArrayRoundTrip(v: Value)
    requires v.Array? && NoEmptyKey(v)
    ensures ParseArray(Json(v), 0) == Read(true, Normal(v).elems, |Json(v)| - 2)
  {
    hide *;
    JsonStarts(v);
    ArrayRead(Json(v), 0, 0, v);
  }
}

/** Why a tree with an empty key does not come back: the printer leaves that key out, and nothing
    the parser does with the printed text, wherever it goes astray, can find an empty key in it. */
module JsonEmptyKeys {
  import opened JsonTree
  import opened Scan = JsonScan
  import opened Text = JsonText
  import opened JsonRoundTrip
  import opened Texts
  import opened Decimals
  import opened JsonNumbers

  // Texts in which no empty string is followed by a colon

  /** Outside strings a printed text has none of the characters that open something unforeseen. */
  predicate Symbol(c: char) { c != '"' && c != '\'' && c != '/' }

  predicate ColonNext(s: string, i: nat)
    requires i <= |s|
  {
    SkipSpace(s, i) < |s| && s[SkipSpace(s, i)] == ':'
  }

  /** From i on, which lies outside strings, the text consists of symbols and complete strings, and
      an empty string is not followed by a colon. */
  predicate Lexed(s: string, i: nat)
    requires i <= |s|
    decreases |s| - i
  {
    if i == |s| then true
    else if s[i] == '"' then
      var r := StringBody(s, i + 1, '"', "");
      r.ok && (r.value == "" ==> !ColonNext(s, r.pos)) && Lexed(s, r.pos)
    else Symbol(s[i]) && Lexed(s, i + 1)
  }

  // The parser stays outside strings and finds no empty key

  lemma {:induction false} SkipSpaceLexed(s: string, i: nat)
    requires i <= |s| && Lexed(s, i)
    ensures Lexed(s, SkipSpace(s, i))
    decreases |s| - i
  {
    if i < |s| && IsSpace(s[i]) {
      SkipSpaceLexed(s, i + 1);
    }
  }

  lemma {:induction false} PutBackAll(s: string, i: nat, pattern: string, k: nat)
    requires k <= |pattern| && k <= i <= |s| && s[i - k..i] == pattern[..k]
    ensures PutBack(s, i, pattern, k) == i - k
    decreases k
  {
    if k > 0 {
      assert s[i - k..i][k - 1] == pattern[..k][k - 1];
      assert s[i - k..i - 1] == s[i - k..i][..k - 1];
      PutBackAll(s, i - 1, pattern, k - 1);
    }
  }

  /** A failing match puts back all it has read: there are no comments to skip. */
  lemma {:induction false} MatchFromLexed(s: string, i: nat, pattern: string, k: nat)
    requires k <= |pattern| && k <= i <= |s| && s[i - k..i] == pattern[..k]
    requires '"' !in pattern && Lexed(s, i) && Lexed(s, i - k)
    ensures Lexed(s, MatchFrom(s, i, pattern, k).pos)
    decreases |s| - i
  {
    if k == |pattern| || i == |s| {
    } else if s[i] == pattern[k] {
      assert pattern[k] in pattern;
      assert s[i + 1 - (k + 1)..i + 1] == s[i - k..i] + [s[i]];
      assert pattern[..k + 1] == pattern[..k] + [pattern[k]];
      MatchFromLexed(s, i + 1, pattern, k + 1);
    } else {
      PutBackAll(s, i, pattern, k);
    }
  }

  lemma MatchLexed(s: string, i: nat, pattern: string)
    requires i <= |s| && Lexed(s, i) && '"' !in pattern
    ensures Lexed(s, Match(s, i, pattern).pos)
  {
    SkipSpaceLexed(s, i);
    var j := SkipSpace(s, i);
    assert s[j - 0..j] == pattern[..0];
    MatchFromLexed(s, j, pattern, 0);
  }

  lemma ColonIsNext(s: string, i: nat)
    requires i <= |s| && Lexed(s, i) && Match(s, i, ":").ok
    ensures ColonNext(s, i)
  {
    SkipSpaceLexed(s, i);
  }

  /** An empty string is read only where no colon follows it. */
  lemma ParseStringLexed(s: string, i: nat)
    requires i <= |s| && Lexed(s, i)
    ensures var r := ParseString(s, i);
      Lexed(s, r.pos) && (r.ok && r.value == "" ==> !ColonNext(s, r.pos))
  {
    SkipSpaceLexed(s, i);
    var j := SkipSpace(s, i);
    if j < |s| && s[j] == '"' {
      assert s[j..j + 1] == "\"";
      MatchHere(s, i, "\"");
    } else if j < |s| {
      MatchFails(s, i, "\"");
    }
  }

  lemma {:induction false} DigitsEndLexed(s: string, i: nat)
    requires i <= |s| && Lexed(s, i)
    ensures Lexed(s, DigitsEnd(s, i))
    decreases |s| - i
  {
    if i < |s| && IsDigit(s[i]) {
      DigitsEndLexed(s, i + 1);
    }
  }

  lemma SignEndLexed(s: string, i: nat)
    requires i <= |s| && Lexed(s, i)
    ensures Lexed(s, SignEnd(s, i))
  {
  }

  lemma ScanExponentLexed(s: string, i: nat)
    requires i <= |s| && Lexed(s, i)
    ensures Lexed(s, ScanExponent(s, i).pos)
  {
    if i < |s| && (s[i] == 'e' || s[i] == 'E') {
      SignEndLexed(s, i + 1);
      DigitsEndLexed(s, SignEnd(s, i + 1));
    }
  }

  lemma ParseNumberLexed(s: string, i: nat)
    requires i <= |s| && Lexed(s, i)
    ensures Lexed(s, ParseNumber(s, i).pos)
  {
    hide ScanExponent, SkipSpace, SignEnd, DigitsEnd, DigitsValue, Power10;
    SkipSpaceLexed(s, i);
    var j := SkipSpace(s, i);
    var a := SignEnd(s, j);
    SignEndLexed(s, j);
    DigitsEndLexed(s, a);
    var whole := Digits(s, a);
    if whole.pos < |s| && s[whole.pos] == '.' {
      DigitsEndLexed(s, whole.pos + 1);
      ScanExponentLexed(s, Digits(s, whole.pos + 1).pos);
    } else {
      ScanExponentLexed(s, whole.pos);
    }
  }

  lemma ParseWordLexed(s: string, i: nat)
    requires i <= |s| && Lexed(s, i)
    ensures Lexed(s, ParseBool(s, i).pos) && Lexed(s, ParseNull(s, i).pos)
  {
    hide Match, Lexed;
    MatchLexed(s, i, "true");
    MatchLexed(s, Match(s, i, "true").pos, "false");
    MatchLexed(s, i, "null");
  }

  predicate CleanElems(elems: seq<Value>) { forall i :: 0 <= i < |elems| ==> NoEmptyKey(elems[i]) }

  predicate CleanMembers(members: map<string, Value>) {
    "" !in members && forall k :: k in members ==> NoEmptyKey(members[k])
  }

  lemma {:induction false} ParseValueClean(s: string, i: nat)
    requires i <= |s| && Lexed(s, i)
    ensures Lexed(s, ParseValue(s, i).pos) && NoEmptyKey(ParseValue(s, i).value)
    decreases |s| - i, 2
  {
    hide Lexed, ParseString, ParseNumber, ParseBool, ParseNull, ParseArray, ParseObject;
    var str := ParseString(s, i);
    ParseStringLexed(s, i);
    var num := ParseNumber(s, str.pos);
    ParseNumberLexed(s, str.pos);
    var flag := ParseBool(s, num.pos);
    ParseWordLexed(s, num.pos);
    var nil := ParseNull(s, flag.pos);
    ParseWordLexed(s, flag.pos);
    if nil.pos < |s| && s[nil.pos] == '[' {
      ParseArrayClean(s, nil.pos);
      ParseObjectClean(s, ParseArray(s, nil.pos).pos);
    } else {
      ParseObjectClean(s, nil.pos);
    }
  }

  lemma {:induction false} ParseArrayClean(s: string, i: nat)
    requires i <= |s| && Lexed(s, i)
    ensures Lexed(s, ParseArray(s, i).pos) && CleanElems(ParseArray(s, i).value)
    decreases |s| - i, 1
  {
    hide Lexed, Match, ParseElements;
    var open := Match(s, i, "[");
    MatchLexed(s, i, "[");
    MatchLexed(s, open.pos, "]");
    if open.ok && !Match(s, open.pos, "]").ok {
      ParseElementsClean(s, Match(s, open.pos, "]").pos, []);
    }
  }

  lemma {:induction false} ParseElementsClean(s: string, i: nat, acc: seq<Value>)
    requires i <= |s| && Lexed(s, i) && CleanElems(acc)
    ensures Lexed(s, ParseElements(s, i, acc).pos) && CleanElems(ParseElements(s, i, acc).value)
    decreases |s| - i, 3
  {
    hide Lexed, Match, ParseValue, NoEmptyKey;
    var v := ParseValue(s, i);
    ParseValueClean(s, i);
    MatchLexed(s, v.pos, "]");
    MatchLexed(s, v.pos, ",");
    var comma := Match(s, v.pos, ",");
    MatchLexed(s, comma.pos, "]");
    if v.ok && comma.ok {
      ParseElementsClean(s, comma.pos, acc + [v.value]);
    }
  }

  lemma {:induction false} ParseObjectClean(s: string, i: nat)
    requires i <= |s| && Lexed(s, i)
    ensures Lexed(s, ParseObject(s, i).pos) && CleanMembers(ParseObject(s, i).value)
    decreases |s| - i, 1
  {
    hide Lexed, Match, ParseMembers;
    var open := Match(s, i, "{");
    MatchLexed(s, i, "{");
    MatchLexed(s, open.pos, "}");
    if open.ok && !Match(s, open.pos, "}").ok {
      ParseMembersClean(s, Match(s, open.pos, "}").pos, map[]);
    }
  }

  lemma {:induction false} ParseMembersClean(s: string, i: nat, acc: map<string, Value>)
    requires i <= |s| && Lexed(s, i) && CleanMembers(acc)
    ensures Lexed(s, ParseMembers(s, i, acc).pos) && CleanMembers(ParseMembers(s, i, acc).value)
    decreases |s| - i, 3
  {
    hide Lexed, Match, ParseString, ParseValue, NoEmptyKey, ColonNext;
    var key := ParseString(s, i);
    ParseStringLexed(s, i);
    MatchLexed(s, key.pos, "}");
    if key.ok {
      var colon := Match(s, key.pos, ":");
      MatchLexed(s, key.pos, ":");
      if colon.ok {
        ColonIsNext(s, key.pos);
        assert key.value != "";
        var v := ParseValue(s, colon.pos);
        ParseValueClean(s, colon.pos);
        MatchLexed(s, v.pos, "}");
        var comma := Match(s, v.pos, ",");
        MatchLexed(s, v.pos, ",");
        MatchLexed(s, comma.pos, "}");
        if v.ok && comma.ok {
          ParseMembersClean(s, comma.pos, acc[key.value := v.value]);
        }
      }
    }
  }

  // Every printed text is of this kind

  predicate Symbols(t: string) { forall k :: 0 <= k < |t| ==> Symbol(t[k]) }

  lemma {:induction false} SymbolsLexed(s: string, i: nat, t: string)
    requires At(s, i, t) && Symbols(t) && Lexed(s, i + |t|)
    ensures Lexed(s, i)
    decreases |t|
  {
    if t != "" {
      AtSplit(s, i, [t[0]], t[1..]) by { assert [t[0]] + t[1..] == t; }
      AtChar(s, i, t, 0);
      SymbolsLexed(s, i + 1, t[1..]);
    }
  }

  lemma QuotedLexed(s: string, i: nat, text: string)
    requires At(s, i, Quoted(text)) && Lexed(s, i + |Quoted(text)|)
    requires text == "" ==> !ColonNext(s, i + |Quoted(text)|)
    ensures Lexed(s, i)
  {
    assert Quoted(text) == "\"" + (Escape(text) + "\"");
    AtSplit(s, i, "\"", Escape(text) + "\"");
    AtChar(s, i, "\"", 0);
    StringBodyRead(s, i + 1, text, "");
    assert "" + text == text;
  }

  lemma NumberIsSymbols(d: Decimal)
    ensures Symbols(PrintNumber(d))
  {
    hide PrintNumber;
    NumberChars(d);
  }

  lemma ScalarLexed(s: string, i: nat, v: Value)
    requires !v.Array? && !v.Object? && At(s, i, Scalar(v))
    requires Lexed(s, i + |Scalar(v)|) && !ColonNext(s, i + |Scalar(v)|)
    ensures Lexed(s, i)
  {
    hide Lexed, ColonNext, At, PrintNumber;
    if v.String? {
      QuotedLexed(s, i, v.text);
    } else {
      if v.Number? {
        NumberIsSymbols(v.number);
      }
      SymbolsLexed(s, i, Scalar(v));
    }
  }

  lemma TabsAreSymbols(depth: nat)
    ensures Symbols(Tabs(depth)) && Head(depth, "") == Tabs(depth)
  {
  }

  lemma NamedHead(depth: nat, name: string)
    requires name != ""
    ensures Head(depth, name) == Tabs(depth) + (Quoted(name) + ": ")
    ensures |Head(depth, name)| == depth + |Quoted(name)| + 2
  {
  }

  lemma HeadLexed(s: string, i: nat, depth: nat, name: string)
    requires At(s, i, Head(depth, name)) && Lexed(s, i + |Head(depth, name)|)
    ensures Lexed(s, i)
  {
    hide *;
    TabsAreSymbols(depth);
    if name == "" {
      SymbolsLexed(s, i, Tabs(depth));
    } else {
      NamedHead(depth, name);
      AtSplit(s, i, Tabs(depth), Quoted(name) + ": ");
      AtSplit(s, i + depth, Quoted(name), ": ");
      ColonIsSymbols();
      SymbolsLexed(s, i + depth + |Quoted(name)|, ": ");
      QuotedLexed(s, i + depth, name);
      SymbolsLexed(s, i, Tabs(depth));
    }
  }

  lemma ColonIsSymbols()
    ensures Symbols(": ") && Symbols("[\n") && Symbols("{\n") && Symbols(",\n") && Symbols(" \n")
  {
  }

  lemma {:induction false} PlainLexed(s: string, i: nat, depth: nat, name: string, v: Value)
    requires At(s, i, Plain(depth, name, v))
    requires Lexed(s, i + |Plain(depth, name, v)|) && !ColonNext(s, i + |Plain(depth, name, v)|)
    ensures Lexed(s, i)
    decreases v, 1, 0
  {
    hide Lexed, ColonNext, At, Head, Body;
    AtSplit(s, i, Head(depth, name), Body(depth, v));
    BodyLexed(s, i + |Head(depth, name)|, depth, v);
    HeadLexed(s, i, depth, name);
  }

  /** After the last child, if there is one, and in front of the closing bracket. */
  lemma ClosingLexed(s: string, i: nat, children: nat, depth: nat, bracket: char)
    requires At(s, i, Ending(children) + Tabs(depth) + [bracket]) && (bracket == ']' || bracket == '}')
    requires Lexed(s, i + |Ending(children)| + depth + 1)
    ensures Lexed(s, i) && !ColonNext(s, i)
  {
    var spaces := Ending(children) + Tabs(depth);
    AtSplit(s, i, spaces, [bracket]);
    var j := i + |spaces|;
    AtChar(s, j, [bracket], 0);
    forall k | i <= k < j ensures IsSpace(s[k]) {
      AtChar(s, i, spaces, k - i);
    }
    SkipSpaceOver(s, i, j);
    SymbolsLexed(s, i, spaces);
  }

  lemma {:induction false} BodyLexed(s: string, i: nat, depth: nat, v: Value)
    requires At(s, i, Body(depth, v))
    requires Lexed(s, i + |Body(depth, v)|) && !ColonNext(s, i + |Body(depth, v)|)
    ensures Lexed(s, i)
    decreases v, 0, 1, 1
  {
    match v
    case Array(_) =>
      hide Lexed, ColonNext, At, Body;
      ArrayLexed(s, i, depth, v);
    case Object(_) =>
      hide Lexed, ColonNext, At, Body;
      ObjectLexed(s, i, depth, v);
    case _ => ScalarLexed(s, i, v);
  }

  function ArrayText(depth: nat, v: Value): string
    requires v.Array?
  {
    "[\n" + PlainElements(depth + 1, v, 0) + Ending(|v.elems|) + Tabs(depth) + [']']
  }

  function ObjectText(depth: nat, v: Value): string
    requires v.Object?
  {
    "{\n" + PlainMembers(depth + 1, v, 0) + Ending(|Keys(v)|) + Tabs(depth) + ['}']
  }

  lemma ContainerBody(depth: nat, v: Value)
    requires (v.Array? || v.Object?)
    ensures Body(depth, v) == if v.Array? then ArrayText(depth, v) else ObjectText(depth, v)
  {
  }

  lemma {:induction false} ArrayLexed(s: string, i: nat, depth: nat, v: Value)
    requires v.Array? && At(s, i, Body(depth, v))
    requires Lexed(s, i + |Body(depth, v)|)
    ensures Lexed(s, i)
    decreases v, 0, 1, 0
  {
    hide Lexed, ColonNext, At, Ending, Tabs, PlainElements, Symbols, Body;
    ContainerBody(depth, v);
    ColonIsSymbols();
    var inside := PlainElements(depth + 1, v, 0);
    FilledLexed(s, i, depth, "[\n", inside, |v.elems|, ']');
    if v.elems == [] {
      NoElements(depth + 1, v);
    } else {
      PlainElementsLexed(s, i + 2, depth + 1, v, 0);
    }
    SymbolsLexed(s, i, "[\n");
  }

  lemma {:induction false} ObjectLexed(s: string, i: nat, depth: nat, v: Value)
    requires v.Object? && At(s, i, Body(depth, v))
    requires Lexed(s, i + |Body(depth, v)|)
    ensures Lexed(s, i)
    decreases v, 0, 1, 0
  {
    hide Lexed, ColonNext, At, Ending, Tabs, PlainMembers, Symbols, Keys, Body;
    ContainerBody(depth, v);
    ColonIsSymbols();
    var inside := PlainMembers(depth + 1, v, 0);
    FilledLexed(s, i, depth, "{\n", inside, |Keys(v)|, '}');
    if |Keys(v)| == 0 {
      NoMembers(depth + 1, v);
    } else {
      PlainMembersLexed(s, i + 2, depth + 1, v, 0);
    }
    SymbolsLexed(s, i, "{\n");
  }

  /** The end of a container's text, from its last child on. */
  lemma FilledLexed(s: string, i: nat, depth: nat, open: string, inside: string, children: nat, close: char)
    requires |open| == 2 && (close == ']' || close == '}')
    requires At(s, i, open + inside + Ending(children) + Tabs(depth) + [close])
    requires Lexed(s, i + |open + inside + Ending(children) + Tabs(depth) + [close]|)
    ensures At(s, i, open) && At(s, i + 2, inside)
    ensures Lexed(s, i + 2 + |inside|) && !ColonNext(s, i + 2 + |inside|)
  {
    hide Lexed, ColonNext, At, Ending, Tabs;
    SplitContainer(s, i, open, inside, Ending(children), Tabs(depth), [close]);
    ClosingLexed(s, i + 2 + |inside|, children, depth, close);
  }

  lemma NoElements(depth: nat, v: Value)
    requires v.Array? && |v.elems| == 0
    ensures PlainElements(depth, v, 0) == ""
  {
  }

  lemma NoMembers(depth: nat, v: Value)
    requires v.Object? && |Keys(v)| == 0
    ensures PlainMembers(depth, v, 0) == ""
  {
  }

  lemma SplitContainer(s: string, i: nat, open: string, inside: string, ending: string, tabs: string, close: string)
    requires At(s, i, open + inside + ending + tabs + close)
    ensures At(s, i, open) && At(s, i + |open|, inside) && At(s, i + |open| + |inside|, ending + tabs + close)
  {
    var rest := ending + tabs + close;
    assert open + inside + ending + tabs + close == open + (inside + rest);
    AtSplit(s, i, open, inside + rest);
    AtSplit(s, i + |open|, inside, rest);
  }

  /** A child with the separator after it, in front of the rest. */
  lemma ChildLexed(s: string, i: nat, own: string, rest: string)
    requires At(s, i, own + ",\n" + rest) && Lexed(s, i + |own| + 2)
    ensures At(s, i, own) && At(s, i + |own| + 2, rest)
    ensures Lexed(s, i + |own|) && !ColonNext(s, i + |own|)
  {
    assert own + ",\n" + rest == own + (",\n" + rest);
    AtSplit(s, i, own, ",\n" + rest);
    AtSplit(s, i + |own|, ",\n", rest);
    AtChar(s, i + |own|, ",\n", 0);
    SymbolsLexed(s, i + |own|, ",\n");
  }

  lemma {:induction false} PlainElementsLexed(s: string, i: nat, depth: nat, v: Value, n: nat)
    requires v.Array? && n < |v.elems| && At(s, i, PlainElements(depth, v, n))
    requires Lexed(s, i + |PlainElements(depth, v, n)|) && !ColonNext(s, i + |PlainElements(depth, v, n)|)
    ensures Lexed(s, i)
    decreases v, 0, 0, |v.elems| - n
  {
    hide Lexed, ColonNext, At, Plain;
    var own := Plain(depth, "", v.elems[n]);
    if n + 1 < |v.elems| {
      var rest := PlainElements(depth, v, n + 1);
      SplitChild(s, i, own, rest);
      PlainElementsLexed(s, i + |own| + 2, depth, v, n + 1);
      ChildLexed(s, i, own, rest);
    }
    PlainLexed(s, i, depth, "", v.elems[n]);
  }

  lemma SplitChild(s: string, i: nat, own: string, rest: string)
    requires At(s, i, own + ",\n" + rest)
    ensures At(s, i, own) && At(s, i + |own| + 2, rest)
  {
    assert own + ",\n" + rest == own + (",\n" + rest);
    AtSplit(s, i, own, ",\n" + rest);
    AtSplit(s, i + |own|, ",\n", rest);
  }

  lemma {:induction false} PlainMembersLexed(s: string, i: nat, depth: nat, v: Value, n: nat)
    requires v.Object? && n < |Keys(v)| && At(s, i, PlainMembers(depth, v, n))
    requires Lexed(s, i + |PlainMembers(depth, v, n)|) && !ColonNext(s, i + |PlainMembers(depth, v, n)|)
    ensures Lexed(s, i)
    decreases v, 0, 0, |Keys(v)| - n
  {
    hide Lexed, ColonNext, At, Plain, Keys;
    var k := Keys(v)[n];
    KeyOfMember(v, n);
    var own := Plain(depth, k, v.members[k]);
    if n + 1 < |Keys(v)| {
      var rest := PlainMembers(depth, v, n + 1);
      SplitChild(s, i, own, rest);
      PlainMembersLexed(s, i + |own| + 2, depth, v, n + 1);
      ChildLexed(s, i, own, rest);
    }
    PlainLexed(s, i, depth, k, v.members[k]);
  }

  lemma JsonLexed(v: Value)
    requires (v.Array? || v.Object?)
    ensures Lexed(Json(v), 0)
  {
    hide Lexed, Body, Json, ColonNext;
    JsonStarts(v);
    SeparatorLexed(Json(v), Body(0, v));
    BodyLexed(Json(v), 0, 0, v);
  }

  lemma SeparatorLexed(s: string, own: string)
    requires s == own + " \n"
    ensures Lexed(s, |own|) && !ColonNext(s, |own|)
  {
    var n := |own|;
    assert At(s, n, " \n") by { assert s[n..n + 2] == " \n"; }
    EndLexed(s);
    SymbolsLexed(s, n, " \n");
    SkipSpaceOver(s, n, |s|) by { assert Spaces(s, n, |s|); }
  }

  lemma EndLexed(s: string)
    ensures Lexed(s, |s|)
  {
  }

  // The round trip holds exactly for trees without empty keys

  lemma {:induction false} NormalKeepsKeys(v: Value)
    ensures NoEmptyKey(Normal(v)) <==> NoEmptyKey(v)
  {
    match v
    case Array(elems) =>
      forall i | 0 <= i < |elems| ensures NoEmptyKey(Normal(v).elems[i]) <==> NoEmptyKey(elems[i]) {
        NormalKeepsKeys(elems[i]);
      }
    case Object(members) =>
      forall k | k in members ensures NoEmptyKey(Normal(v).members[k]) <==> NoEmptyKey(members[k]) {
        NormalKeepsKeys(members[k]);
      }
    case _ =>
  }

  /** Parsing the text of any tree, whether it succeeds or not, yields no empty key at any depth. */
  lemma ParsedTextHasNoEmptyKey(v: Value)
    requires (v.Array? || v.Object?)
    ensures NoEmptyKey(Object(ParseObject(Json(v), 0).value)) && NoEmptyKey(Array(ParseArray(Json(v), 0).value))
  {
    JsonLexed(v);
    ParseObjectClean(Json(v), 0);
    ParseArrayClean(Json(v), 0);
  }

  /** The text of an object gives the object back exactly when no key in it, at any depth, is
      empty. */
  lemma ObjectRoundTripExactly(v: Value)
    requires v.Object?
    ensures ParseObject(Json(v), 0).ok && ParseObject(Json(v), 0).value == Normal(v).members <==> NoEmptyKey(v)
  {
    hide ParseObject, Json;
    NormalKeepsKeys(v);
    ParsedTextHasNoEmptyKey(v);
    if NoEmptyKey(v) {
      ObjectRoundTrip(v);
    } else {
      assert Normal(v) == Object(Normal(v).members);
    }
  }

  lemma ArrayRoundTripExactly(v: Value)
    requires v.Array?
    ensures ParseArray(Json(v), 0).ok && ParseArray(Json(v), 0).value == Normal(v).elems <==> NoEmptyKey(v)
  {
    hide ParseArray, Json;
    NormalKeepsKeys(v);
    ParsedTextHasNoEmptyKey(v);
    if NoEmptyKey(v) {
      ArrayRoundTrip(v);
    } else {
      assert Normal(v) == Array(Normal(v).elems);
    }
  }
}

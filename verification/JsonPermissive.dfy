/** What the parser accepts beyond the texts that the printer makes. */
module JsonPermissive {
  import opened JsonTree
  import opened Scan = JsonScan
  import opened JsonRoundTrip
  import opened Texts

  /** A comment in front of a token, to the end of its line, is white space. */
  lemma CommentIsSpace(s: string, i: nat, pattern: string)
    requires i <= |s| && pattern != "" && pattern[0] != '/' && CommentAt(s, SkipSpace(s, i))
    ensures Match(s, i, pattern) == Match(s, SkipComment(s, SkipSpace(s, i)), pattern)
  {
    var j := SkipSpace(s, i);
    SkipSpaceTwice(s, LineEnd(s, j + 2));
  }

  /** No alternative of a value starts with this character. */
  predicate StartsNoValue(c: char) {
    c != '"' && c != '\'' && c != '/' && !IsDigit(c) && c != '-' && c != '+' && c != '.'
    && c != 't' && c != 'f' && c != 'n' && c != '[' && c != '{'
  }

  lemma NoWordHere(s: string, i: nat)
    requires i <= |s| && SkipSpace(s, i) < |s| && StartsNoValue(s[SkipSpace(s, i)])
    ensures var j := SkipSpace(s, i);
      && ParseString(s, i) == Read(false, "", j)
      && !ParseNumber(s, j).ok && ParseNumber(s, j).pos == j
      && !ParseBool(s, j).ok && ParseBool(s, j).pos == j
      && ParseNull(s, j) == Read(s[j] == ',', (), j)
  {
    var j := SkipSpace(s, i);
    SkipSpaceTwice(s, i);
    NotAString(s, i);
    NotANumber(s, j);
    MatchFails(s, j, "true");
    MatchFails(s, j, "false");
    MatchFails(s, j, "null");
  }

  /** A missing value before a comma is null, and the comma is left to be read. */
  lemma MissingValueIsNull(s: string, i: nat)
    requires i <= |s| && SkipSpace(s, i) < |s| && s[SkipSpace(s, i)] == ','
    ensures ParseValue(s, i) == Read(true, Null, SkipSpace(s, i))
  {
    hide SkipSpace, ParseString, ParseNumber, ParseBool, ParseNull, ParseArray, ParseObject;
    NoWordHere(s, i);
  }

  lemma NoValueHere(s: string, i: nat)
    requires i <= |s| && SkipSpace(s, i) < |s|
    requires StartsNoValue(s[SkipSpace(s, i)]) && s[SkipSpace(s, i)] != ','
    ensures ParseValue(s, i) == Read(false, Invalid, SkipSpace(s, i))
  {
    hide SkipSpace, ParseString, ParseNumber, ParseBool, ParseNull, ParseArray;
    NoWordHere(s, i);
    SkipSpaceTwice(s, i);
    MatchFails(s, SkipSpace(s, i), "{");
  }

  lemma ClosesHere(s: string, i: nat, bracket: char)
    requires i < |s| && s[i] == bracket && SkipSpace(s, i) == i
    ensures Match(s, i, [bracket]) == Read(true, (), i + 1)
  {
    assert s[i..i + 1] == [bracket];
    MatchHere(s, i, [bracket]);
  }

  /** A comma before the closing bracket adds no element. */
  lemma TrailingCommaInArray(s: string, i: nat, acc: seq<Value>)
    requires i <= |s| && SkipSpace(s, i) < |s| && s[SkipSpace(s, i)] == ']'
    ensures ParseElements(s, i, acc) == Read(true, acc, SkipSpace(s, i) + 1)
  {
    hide SkipSpace, ParseValue, Match;
    NoValueHere(s, i);
    SkipSpaceTwice(s, i);
    ClosesHere(s, SkipSpace(s, i), ']');
  }

  /** A comma before the closing brace adds no member. */
  lemma TrailingCommaInObject(s: string, i: nat, acc: map<string, Value>)
    requires i <= |s| && SkipSpace(s, i) < |s| && s[SkipSpace(s, i)] == '}'
    ensures ParseMembers(s, i, acc) == Read(true, acc, SkipSpace(s, i) + 1)
  {
    hide SkipSpace, ParseValue, ParseString, Match;
    NotAString(s, i);
    SkipSpaceTwice(s, i);
    ClosesHere(s, SkipSpace(s, i), '}');
  }

  /** Characters that stand for themselves between either kind of quotes. */
  predicate Unquoted(t: string) { forall k :: 0 <= k < |t| ==> t[k] != '"' && t[k] != '\'' && t[k] != '\\' }

  lemma {:induction false} UnquotedBody(s: string, i: nat, t: string, quote: char, acc: string)
    requires At(s, i, t + [quote]) && Unquoted(t) && (quote == '"' || quote == '\'')
    ensures StringBody(s, i, quote, acc) == Read(true, acc + t, i + |t| + 1)
    decreases |t|
  {
    AtChar(s, i, t + [quote], 0);
    if t == "" {
      assert acc + t == acc;
    } else {
      assert t + [quote] == [t[0]] + (t[1..] + [quote]);
      AtSplit(s, i, [t[0]], t[1..] + [quote]);
      UnquotedBody(s, i + 1, t[1..], quote, acc + [t[0]]);
      assert acc + [t[0]] + t[1..] == acc + t;
    }
  }

  /** Single quotes delimit a string as double quotes do. */
  lemma EitherQuote(s: string, i: nat, t: string, quote: char)
    requires (quote == '"' || quote == '\'') && Unquoted(t)
    requires i <= |s| && At(s, SkipSpace(s, i), [quote] + (t + [quote]))
    ensures ParseString(s, i) == Read(true, t, SkipSpace(s, i) + |t| + 2)
  {
    hide SkipSpace, Match, StringBody;
    var j := SkipSpace(s, i);
    AtSplit(s, j, [quote], t + [quote]);
    AtChar(s, j, [quote], 0);
    UnquotedBody(s, j + 1, t, quote, "");
    assert "" + t == t;
    if quote == '"' {
      MatchHere(s, i, "\"");
    } else {
      MatchFails(s, i, "\"");
    }
  }

  /** What is read from here on overrides what was read before, and depends on nothing else of it. */
  lemma {:induction false} LaterMembersWin(s: string, i: nat, acc: map<string, Value>)
    requires i <= |s|
    ensures var own := ParseMembers(s, i, map[]);
      ParseMembers(s, i, acc) == Read(own.ok, acc + own.value, own.pos)
    decreases |s| - i
  {
    hide ParseString, ParseValue, Match;
    var key := ParseString(s, i);
    assert acc + map[] == acc;
    if key.ok {
      var colon := Match(s, key.pos, ":");
      if colon.ok {
        var v := ParseValue(s, colon.pos);
        var comma := Match(s, v.pos, ",");
        assert acc + map[key.value := v.value] == acc[key.value := v.value];
        CommaConsumes(s, key.pos);
        CommaConsumes(s, v.pos);
        if v.ok && comma.ok {
          LaterMembersWin(s, comma.pos, acc[key.value := v.value]);
          LaterMembersWin(s, comma.pos, map[key.value := v.value]);
          var rest := ParseMembers(s, comma.pos, map[]).value;
          assert acc[key.value := v.value] + rest == acc + (map[key.value := v.value] + rest);
        }
      }
    }
  }

  lemma CommaConsumes(s: string, i: nat)
    requires i <= |s|
    ensures Match(s, i, ",").ok ==> i < Match(s, i, ",").pos
    ensures Match(s, i, ":").ok ==> i < Match(s, i, ":").pos
  {
  }

  /** A member takes the place of an earlier one with its key, and later ones take its place. */
  lemma LastOfEqualKeysWins(s: string, i: nat, acc: map<string, Value>)
    requires i <= |s|
    ensures var key := ParseString(s, i);
      var colon := Match(s, key.pos, ":");
      var v := ParseValue(s, colon.pos);
      var comma := Match(s, v.pos, ",");
      var later := if comma.ok then ParseMembers(s, comma.pos, map[]).value else map[];
      key.ok && colon.ok && v.ok ==> ParseMembers(s, i, acc).value == acc[key.value := v.value] + later
  {
    hide ParseString, ParseValue, Match;
    var key := ParseString(s, i);
    var colon := Match(s, key.pos, ":");
    var v := ParseValue(s, colon.pos);
    if key.ok && colon.ok && v.ok {
      assert colon.value == ();
      MembersTurn(s, i, acc, key.value, key.pos, colon.pos, v.value, v.pos);
      var comma := Match(s, v.pos, ",");
      if comma.ok {
        LaterMembersWin(s, comma.pos, acc[key.value := v.value]);
      } else {
        assert acc[key.value := v.value] + map[] == acc[key.value := v.value];
      }
    }
  }

  // Texts that end too early

  lemma {:induction false} MatchToEnd(s: string, i: nat, pattern: string, k: nat, n: nat)
    requires k <= n < |pattern| && i + (n - k) == |s| && s[i..] == pattern[k..n]
    ensures MatchFrom(s, i, pattern, k) == Read(RepeatsAtEnd(pattern, n), (), |s|)
    decreases n - k
  {
    if k < n {
      assert s[i] == s[i..][0] == pattern[k..n][0];
      assert s[i + 1..] == s[i..][1..] && pattern[k + 1..n] == pattern[k..n][1..];
      MatchToEnd(s, i + 1, pattern, k + 1, n);
    }
  }

  /** A token cut off by the end of the text is accepted exactly when only its last character is
      missing and that repeats the one before. */
  lemma CutOffToken(s: string, i: nat, pattern: string, n: nat)
    requires i <= |s| && n < |pattern| && s[SkipSpace(s, i)..] == pattern[..n]
    ensures Match(s, i, pattern) == Read(RepeatsAtEnd(pattern, n), (), |s|)
  {
    MatchToEnd(s, SkipSpace(s, i), pattern, 0, n);
  }

  /** So of the words only null can lose its last character. */
  lemma CutOffWord(s: string, i: nat, word: string, n: nat)
    requires word == "true" || word == "false" || word == "null"
    requires i <= |s| && n < |word| && s[SkipSpace(s, i)..] == word[..n]
    ensures Match(s, i, word).ok <==> word == "null" && n == 3
  {
    CutOffToken(s, i, word, n);
  }

  // A token that fails halfway

  /** What a failed match has read goes back into the stream character by character: all of it when it
      stands in the text as it was matched, and otherwise, behind a comment, the stream fails. */
  lemma {:induction false} PutBackExactly(s: string, i: nat, pattern: string, k: nat)
    requires i <= |s| && k <= |pattern|
    ensures PutBack(s, i, pattern, k)
         == if k <= i && s[i - k..i] == pattern[..k] then i - k else |s|
  {
    if k > 0 && i > 0 {
      if s[i - 1] == pattern[k - 1] {
        PutBackExactly(s, i - 1, pattern, k - 1);
        if k <= i {
          assert s[i - k..i] == s[i - k..i - 1] + [s[i - 1]];
          assert pattern[..k] == pattern[..k - 1] + [pattern[k - 1]];
        }
      } else if k <= i {
        assert s[i - k..i][k - 1] != pattern[..k][k - 1];
      }
    }
  }
}

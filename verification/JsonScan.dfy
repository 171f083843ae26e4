/** What the permissive jsonxx parser reads from a text `s` starting at position `i`.

    The C++ functions consume a `std::istream`. Here the stream is the text and a position, and a
    stream whose fail bit is set is a stream at the end of its text: every later read fails there.
    A comment is a run from `//` to the end of the line. */
module JsonScan {
  import opened JsonTree
  import opened Decimals
  import opened Texts

  /** The outcome of reading one item: success, what was read, and where the stream stands. */
  datatype Read<+T> = Read(ok: bool, value: T, pos: nat) {
    function With<U>(v: U): Read<U> { Read(ok, v, pos) }
  }

  const BACKSPACE: char := 8 as char

  predicate IsLineEnd(c: char) { c == '\r' || c == '\n' }

  function LineEnd(s: string, i: nat): (r: nat)
    requires i <= |s|
    ensures i <= r <= |s|
    decreases |s| - i
  {
    if i < |s| && !IsLineEnd(s[i]) then LineEnd(s, i + 1) else i
  }

  predicate CommentAt(s: string, i: nat) {
    i + 1 < |s| && s[i] == '/' && s[i + 1] == '/'
  }

  /** Past the comment at `i` and the white space after it. */
  function SkipComment(s: string, i: nat): (r: nat)
    requires CommentAt(s, i)
    ensures i + 2 <= r <= |s|
  {
    SkipSpace(s, LineEnd(s, i + 2))
  }

  /** Puts back pattern[..k] one character at a time; the stream fails on the first character that
      is not the one just read. */
  function PutBack(s: string, i: nat, pattern: string, k: nat): (r: nat)
    requires i <= |s| && k <= |pattern|
    ensures r <= |s| && i <= r + k
  {
    if k == 0 then i
    else if i > 0 && s[i - 1] == pattern[k - 1] then PutBack(s, i - 1, pattern, k - 1)
    else |s|
  }

  /** At the end of the text the read fails and `match` compares the character before once more: a
      pattern that ends in a repeated character is accepted without its last one. */
  predicate RepeatsAtEnd(pattern: string, k: nat)
    requires k < |pattern|
  {
    k > 0 && k + 1 == |pattern| && pattern[k - 1] == pattern[k]
  }

  /** The loop of `match` with k characters of the pattern already read. */
  function MatchFrom(s: string, i: nat, pattern: string, k: nat): (r: Read<()>)
    requires i <= |s| && k <= |pattern|
    ensures r.pos <= |s| && i <= r.pos + k
    ensures r.ok ==> i + |pattern| <= r.pos + k + if |pattern| <= 1 then 0 else 1
    decreases |s| - i
  {
    if k == |pattern| then Read(true, (), i)
    else if i == |s| then Read(RepeatsAtEnd(pattern, k), (), |s|)
    else if s[i] == pattern[k] then MatchFrom(s, i + 1, pattern, k + 1)
    else if CommentAt(s, i) then
      if SkipComment(s, i) == |s| then Read(false, (), |s|) else MatchFrom(s, SkipComment(s, i), pattern, k)
    else Read(false, (), PutBack(s, i, pattern, k))
  }

  /** `match(pattern, input)`. */
  function Match(s: string, i: nat, pattern: string): (r: Read<()>)
    requires i <= |s|
    ensures i <= r.pos <= |s|
    ensures r.ok && pattern != "" ==> i < r.pos
  {
    MatchFrom(s, SkipSpace(s, i), pattern, 0)
  }

  /** -1 when c is not a hexadecimal digit. */
  function HexDigit(c: char): int {
    if '0' <= c <= '9' then c as int - '0' as int
    else if 'a' <= c <= 'f' then c as int - 'a' as int + 10
    else if 'A' <= c <= 'F' then c as int - 'A' as int + 10
    else -1
  }

  function HexRun(t: string, i: nat, acc: nat): nat
    requires i <= |t|
    decreases |t| - i
  {
    if i < |t| && HexDigit(t[i]) >= 0 then HexRun(t, i + 1, 16 * acc + HexDigit(t[i])) else acc
  }

  /** `ss >> std::hex >> i` on the characters gathered after `\u`: white space, a sign, a `0x`
      prefix and at least one digit; what follows the digits is not looked at. */
  function ScanHex(t: string): Read<int> {
    var a := SkipSpace(t, 0);
    var signed := a < |t| && (t[a] == '-' || t[a] == '+');
    var b := if signed then a + 1 else a;
    var c := if b + 1 < |t| && t[b] == '0' && (t[b + 1] == 'x' || t[b + 1] == 'X') then b + 2 else b;
    if c < |t| && HexDigit(t[c]) >= 0 then
      Read(true, if signed && t[a] == '-' then 0 - HexRun(t, c, 0) as int else HexRun(t, c, 0), 0)
    else Read(false, 0, 0)
  }

  /** `static_cast<char>(i)`. */
  function LowByte(i: int): char { (i % 256) as char }

  /** What an escape other than `\u` appends. */
  function Unescaped(d: char, delimiter: char): string {
    if d == '\\' || d == '/' then [d]
    else if d == 'b' then [BACKSPACE]
    else if d == 'f' then [FORM_FEED]
    else if d == 'n' then "\n"
    else if d == 'r' then "\r"
    else if d == 't' then "\t"
    else if d == delimiter then [d]
    else ['\\', d]
  }

  function UnicodeEscape(digits: string): string {
    var h := ScanHex(digits);
    if h.ok then [LowByte(h.value)] else ""
  }

  /** The loop of `parse_string` after the opening delimiter, with `acc` already gathered. */
  function StringBody(s: string, i: nat, delimiter: char, acc: string): (r: Read<string>)
    requires i <= |s|
    ensures i <= r.pos <= |s|
    decreases |s| - i
  {
    if i == |s| then Read(false, "", |s|)
    else if s[i] == delimiter then Read(true, acc, i + 1)
    else if s[i] != '\\' then StringBody(s, i + 1, delimiter, acc + [s[i]])
    else if i + 1 == |s| then Read(false, "", |s|)
    else if s[i + 1] == 'u' then
      if i + 6 > |s| then Read(false, "", |s|)
      else StringBody(s, i + 6, delimiter, acc + UnicodeEscape(s[i + 2..i + 6]))
    else StringBody(s, i + 2, delimiter, acc + Unescaped(s[i + 1], delimiter))
  }

  /** `parse_string`. */
  function ParseString(s: string, i: nat): (r: Read<string>)
    requires i <= |s|
    ensures i <= r.pos <= |s|
    ensures r.ok ==> i < r.pos
  {
    var m := Match(s, i, "\"");
    if m.ok then StringBody(s, m.pos, '"', "")
    else if m.pos < |s| && s[m.pos] == '\'' then StringBody(s, m.pos + 1, '\'', "")
    else Read(false, "", m.pos)
  }

  function Digits(s: string, i: nat): (r: Read<nat>)
    requires i <= |s|
    ensures i <= r.pos <= |s|
    ensures r.ok ==> i < r.pos
  {
    Read(i < DigitsEnd(s, i), DigitsValue(s, i, DigitsEnd(s, i)), DigitsEnd(s, i))
  }

  function SignEnd(s: string, i: nat): (r: nat)
    requires i <= |s|
    ensures i <= r <= |s|
  {
    if i < |s| && (s[i] == '-' || s[i] == '+') then i + 1 else i
  }

  function SignedValue(s: string, i: nat, magnitude: nat): int
    requires i <= |s|
  {
    if i < |s| && s[i] == '-' then 0 - magnitude as int else magnitude
  }

  /** The exponent part at i; absent when there is no `e`. */
  function ScanExponent(s: string, i: nat): (r: Read<int>)
    requires i <= |s|
    ensures i <= r.pos <= |s|
  {
    if i < |s| && (s[i] == 'e' || s[i] == 'E') then
      var d := Digits(s, SignEnd(s, i + 1));
      Read(d.ok, SignedValue(s, i + 1, d.value), d.pos)
    else Read(true, 0, i)
  }

  /** The decimal token at i: a sign, digits with at most one point, an exponent. */
  function ScanDecimal(s: string, i: nat): (r: Read<Decimal>)
    requires i <= |s|
    ensures i <= r.pos <= |s|
    ensures r.ok ==> i < r.pos
  {
    var a := SignEnd(s, i);
    var whole := Digits(s, a);
    var point := whole.pos < |s| && s[whole.pos] == '.';
    var frac := if point then Digits(s, whole.pos + 1) else Read(false, 0, whole.pos);
    var places := if frac.ok then frac.pos - whole.pos - 1 else 0;
    var e := ScanExponent(s, frac.pos);
    if !whole.ok && !frac.ok then Read(false, Dec(0, 0), i)
    else if !e.ok then Read(false, Dec(0, 0), i)
    else Read(true, Canon(SignedValue(s, i, whole.value * Power10(places) + frac.value), e.value - places), e.pos)
  }

  /** `parse_number`: a token that is not a number puts the stream back after the white space. */
  function ParseNumber(s: string, i: nat): (r: Read<Decimal>)
    requires i <= |s|
    ensures i <= r.pos <= |s|
    ensures r.ok ==> i < r.pos
  {
    ScanDecimal(s, SkipSpace(s, i))
  }

  /** `parse_bool`. */
  function ParseBool(s: string, i: nat): (r: Read<bool>)
    requires i <= |s|
    ensures i <= r.pos <= |s|
    ensures r.ok ==> i < r.pos
  {
    var t := Match(s, i, "true");
    if t.ok then Read(true, true, t.pos)
    else
      var f := Match(s, t.pos, "false");
      Read(f.ok, false, f.pos)
  }

  /** `parse_null`: the word, or a missing value before a comma. */
  function ParseNull(s: string, i: nat): (r: Read<()>)
    requires i <= |s|
    ensures i <= r.pos <= |s|
  {
    var n := Match(s, i, "null");
    if n.ok then n else Read(n.pos < |s| && s[n.pos] == ',', (), n.pos)
  }

  /** `Value::parse`: string, number, bool, null, array, object, in that order. */
  function ParseValue(s: string, i: nat): (r: Read<Value>)
    requires i <= |s|
    ensures i <= r.pos <= |s|
    decreases |s| - i, 2
  {
    var str := ParseString(s, i);
    if str.ok then Read(true, String(str.value), str.pos) else
    var num := ParseNumber(s, str.pos);
    if num.ok then Read(true, Number(num.value), num.pos) else
    var flag := ParseBool(s, num.pos);
    if flag.ok then Read(true, Boolean(flag.value), flag.pos) else
    var nil := ParseNull(s, flag.pos);
    if nil.ok then Read(true, Null, nil.pos) else
    var arr := if nil.pos < |s| && s[nil.pos] == '[' then ParseArray(s, nil.pos)
               else Read(false, [], nil.pos);
    if arr.ok then Read(true, Array(arr.value), arr.pos) else
    var obj := ParseObject(s, arr.pos);
    if obj.ok then Read(true, Object(obj.value), obj.pos)
    else Read(false, Invalid, obj.pos)
  }

  /** `Array::parse`. */
  function ParseArray(s: string, i: nat): (r: Read<seq<Value>>)
    requires i <= |s|
    ensures i <= r.pos <= |s|
    decreases |s| - i, 1
  {
    var open := Match(s, i, "[");
    if !open.ok then Read(false, [], open.pos) else
    var close := Match(s, open.pos, "]");
    if close.ok then Read(true, [], close.pos)
    else ParseElements(s, close.pos, [])
  }

  /** The element loop of `Array::parse` and the closing bracket. */
  function ParseElements(s: string, i: nat, acc: seq<Value>): (r: Read<seq<Value>>)
    requires i <= |s|
    ensures i <= r.pos <= |s|
    decreases |s| - i, 3
  {
    var v := ParseValue(s, i);
    if !v.ok then Match(s, v.pos, "]").With(acc) else
    var comma := Match(s, v.pos, ",");
    if comma.ok then ParseElements(s, comma.pos, acc + [v.value])
    else Match(s, comma.pos, "]").With(acc + [v.value])
  }

  /** `Object::parse`. A failed parse leaves the pairs read so far in the object. */
  function ParseObject(s: string, i: nat): (r: Read<map<string, Value>>)
    requires i <= |s|
    ensures i <= r.pos <= |s|
    decreases |s| - i, 1
  {
    var open := Match(s, i, "{");
    if !open.ok then Read(false, map[], open.pos) else
    var close := Match(s, open.pos, "}");
    if close.ok then Read(true, map[], close.pos)
    else ParseMembers(s, close.pos, map[])
  }

  /** The member loop of `Object::parse` and the closing brace; the last of equal keys wins. */
  function ParseMembers(s: string, i: nat, acc: map<string, Value>): (r: Read<map<string, Value>>)
    requires i <= |s|
    ensures i <= r.pos <= |s|
    decreases |s| - i, 3
  {
    var key := ParseString(s, i);
    if !key.ok then
      if key.pos < |s| && s[key.pos] == '}' then Match(s, key.pos, "}").With(acc)
      else Read(false, acc, key.pos)
    else
    var colon := Match(s, key.pos, ":");
    if !colon.ok then Read(false, acc, colon.pos) else
    var v := ParseValue(s, colon.pos);
    if !v.ok then Match(s, v.pos, "}").With(acc) else
    var comma := Match(s, v.pos, ",");
    if comma.ok then ParseMembers(s, comma.pos, acc[key.value := v.value])
    else Match(s, comma.pos, "}").With(acc[key.value := v.value])
  }

  /** Why the parser stops on every text: a nested parse and a further turn of either loop start
      strictly later than the parse or turn they belong to, although a missing value and a failed
      match consume nothing. */
  lemma NestedParseAndNextTurnStartLater(s: string, i: nat)
    requires i <= |s|
    ensures var open := Match(s, i, "[");
      open.ok ==> i < Match(s, open.pos, "]").pos
    ensures var open := Match(s, i, "{");
      open.ok ==> i < Match(s, open.pos, "}").pos
    ensures var comma := Match(s, ParseValue(s, i).pos, ",");
      comma.ok ==> i < comma.pos
    ensures var key := ParseString(s, i);
      var colon := Match(s, key.pos, ":");
      var comma := Match(s, ParseValue(s, colon.pos).pos, ",");
      key.ok && colon.ok ==> i < colon.pos && (comma.ok ==> i < comma.pos)
  {
  }
}

/** The jsonxx parser as it runs: methods that advance one input stream, each proved to read
    exactly what JsonScan says the text holds at the stream's position. */
module JsonParser {
  import opened JsonTree
  import opened Decimals
  import Scan = JsonScan
  import Texts

  /** A `std::istream` over the bytes `data`; a failed stream stands at the end. */
  class InputStream {
    const data: string
    var pos: nat

    ghost predicate Valid()
      reads this
    {
      pos <= |data|
    }

    constructor (data: string)
      ensures this.data == data && pos == 0 && Valid()
    {
      this.data := data;
      pos := 0;
    }

    /** `input >> std::ws`. */
    method SkipSpace()
      requires Valid()
      modifies this
      ensures Valid() && pos == Texts.SkipSpace(data, old(pos))
    {
      while pos < |data| && Texts.IsSpace(data[pos])
        invariant Valid() && Texts.SkipSpace(data, pos) == Texts.SkipSpace(data, old(pos))
      {
        pos := pos + 1;
      }
    }

    method ParseComment() returns (ok: bool)
      requires Valid()
      modifies this
      ensures Valid() && ok == Scan.CommentAt(data, old(pos))
      ensures pos == if ok then Scan.SkipComment(data, old(pos)) else old(pos)
    {
      if pos < |data| && data[pos] == '/' {
        pos := pos + 1;
        if pos < |data| && data[pos] == '/' {
          pos := pos + 1;
          while pos < |data| && !Scan.IsLineEnd(data[pos])
            invariant Valid() && Scan.LineEnd(data, pos) == Scan.LineEnd(data, old(pos) + 2)
          {
            pos := pos + 1;
          }
          SkipSpace();
          return true;
        }
        pos := pos - 1;
      }
      return false;
    }

    method Match(pattern: string) returns (ok: bool)
      requires Valid()
      modifies this
      ensures Valid() && Scan.Match(data, old(pos), pattern) == Scan.Read(ok, (), pos)
    {
      SkipSpace();
      ghost var start := pos;
      var cur, ch, eof := 0, 0 as char, pos == |data|;
      while !eof && cur < |pattern|
        invariant Valid() && cur <= |pattern|
        invariant !eof ==> Scan.MatchFrom(data, pos, pattern, cur) == Scan.MatchFrom(data, start, pattern, 0)
        invariant !eof && pos == |data| ==> cur > 0 && ch == pattern[cur - 1]
        invariant eof ==> Scan.MatchFrom(data, start, pattern, 0) == Scan.Read(cur == |pattern|, (), pos)
        decreases !eof, |data| - pos
      {
        if pos == |data| {
          // the read fails and leaves the character before it in place
          eof := true;
          if ch != pattern[cur] {
            return false;
          }
          cur := cur + 1;
          continue;
        }
        ch := data[pos];
        if ch == pattern[cur] {
          pos, cur := pos + 1, cur + 1;
          continue;
        }
        var comment := ParseComment();
        if comment {
          eof := pos == |data|;
          continue;
        }
        ghost var mismatch, matched := pos, cur;
        while cur > 0
          invariant Valid() && cur <= matched <= |pattern|
          invariant Scan.PutBack(data, pos, pattern, cur) == Scan.PutBack(data, mismatch, pattern, matched)
        {
          cur := cur - 1;
          if pos == 0 || data[pos - 1] != pattern[cur] {
            pos := |data|;
            return false;
          }
          pos := pos - 1;
        }
        return false;
      }
      ok := cur == |pattern|;
    }

    /** The four characters after `\u`; false when the stream ends before them. */
    method GetUnicodeDigits() returns (ok: bool, digits: string)
      requires Valid()
      modifies this
      ensures Valid() && ok == (old(pos) + 4 <= |data|)
      ensures ok ==> pos == old(pos) + 4 && digits == data[old(pos)..pos]
      ensures !ok ==> pos == |data|
    {
      digits := "";
      var i := 0;
      while pos < |data| && i < 4
        invariant Valid() && i <= 4 && pos == old(pos) + i && digits == data[old(pos)..pos]
      {
        digits := digits + [data[pos]];
        pos, i := pos + 1, i + 1;
      }
      ok := i == 4;
    }

    /** The loop of `parse_string`, entered after the opening delimiter. */
    method ParseStringBody(delimiter: char) returns (ok: bool, value: string)
      requires Valid()
      modifies this
      ensures Valid() && Scan.StringBody(data, old(pos), delimiter, "") == Scan.Read(ok, value, pos)
    {
      value := "";
      while pos < |data|
        invariant Valid()
        invariant Scan.StringBody(data, pos, delimiter, value) == Scan.StringBody(data, old(pos), delimiter, "")
        decreases |data| - pos
      {
        var ch := data[pos];
        pos := pos + 1;
        if ch == delimiter {
          return true, value;
        }
        if ch != '\\' {
          value := value + [ch];
        } else {
          if pos == |data| {
            return false, "";
          }
          ch := data[pos];
          pos := pos + 1;
          if ch == 'u' {
            var complete, digits := GetUnicodeDigits();
            if !complete {
              return false, "";
            }
            value := value + Scan.UnicodeEscape(digits);
          } else {
            value := value + Scan.Unescaped(ch, delimiter);
          }
        }
      }
      return false, "";
    }

    method ParseString() returns (ok: bool, value: string)
      requires Valid()
      modifies this
      ensures Valid() && Scan.ParseString(data, old(pos)) == Scan.Read(ok, value, pos)
    {
      var delimiter := '"';
      var quoted := Match("\"");
      if !quoted {
        delimiter := '\'';
        if pos == |data| || data[pos] != delimiter {
          return false, "";
        }
        pos := pos + 1;
      }
      ok, value := ParseStringBody(delimiter);
    }

    /** `parse_number`; the extraction `input >> value` is the standard library's. */
    method ParseNumber() returns (ok: bool, value: Decimal)
      requires Valid()
      modifies this
      ensures Valid() && Scan.ParseNumber(data, old(pos)) == Scan.Read(ok, value, pos)
    {
      SkipSpace();
      var rollback := pos;
      var token := Scan.ScanDecimal(data, pos);
      ok, value, pos := token.ok, token.value, if token.ok then token.pos else rollback;
    }

    method ParseBool() returns (ok: bool, value: bool)
      requires Valid()
      modifies this
      ensures Valid() && Scan.ParseBool(data, old(pos)) == Scan.Read(ok, value, pos)
    {
      ok := Match("true");
      if ok {
        return true, true;
      }
      ok := Match("false");
      value := false;
    }

    method ParseNull() returns (ok: bool)
      requires Valid()
      modifies this
      ensures Valid() && Scan.ParseNull(data, old(pos)) == Scan.Read(ok, (), pos)
    {
      ok := Match("null");
      if !ok {
        ok := pos < |data| && data[pos] == ',';
      }
    }

    method ParseValue() returns (ok: bool, value: Value)
      requires Valid()
      modifies this
      ensures Valid() && Scan.ParseValue(data, old(pos)) == Scan.Read(ok, value, pos)
      decreases |data| - pos, 2
    {
      var text: string;
      ok, text := ParseString();
      if ok {
        return true, String(text);
      }
      var number: Decimal;
      ok, number := ParseNumber();
      if ok {
        return true, Number(number);
      }
      var flag: bool;
      ok, flag := ParseBool();
      if ok {
        return true, Boolean(flag);
      }
      ok := ParseNull();
      if ok {
        return true, Null;
      }
      if pos < |data| && data[pos] == '[' {
        var elems: seq<Value>;
        ok, elems := ParseArray();
        if ok {
          return true, Array(elems);
        }
      }
      var members: map<string, Value>;
      ok, members := ParseObject();
      return ok, if ok then Object(members) else Invalid;
    }

    method ParseArray() returns (ok: bool, values: seq<Value>)
      requires Valid()
      modifies this
      ensures Valid() && Scan.ParseArray(data, old(pos)) == Scan.Read(ok, values, pos)
      decreases |data| - pos, 1
    {
      values := [];
      ok := Match("[");
      if !ok {
        return;
      }
      ok := Match("]");
      if ok {
        return;
      }
      ghost var start := pos;
      var comma := true;
      while comma
        invariant Valid() && start <= pos && old(pos) < start
        invariant comma ==>
          Scan.ParseElements(data, start, []) == Scan.ParseElements(data, pos, values)
        invariant !comma ==>
          Scan.ParseElements(data, start, []) == Scan.Match(data, pos, "]").With(values)
        decreases comma, |data| - pos
      {
        ghost var p := pos;
        var v: Value;
        ok, v := ParseValue();
        if !ok {
          break;
        }
        values := values + [v];
        comma := Match(",");
      }
      ok := Match("]");
    }

    method ParseObject() returns (ok: bool, valueMap: map<string, Value>)
      requires Valid()
      modifies this
      ensures Valid() && Scan.ParseObject(data, old(pos)) == Scan.Read(ok, valueMap, pos)
      decreases |data| - pos, 1
    {
      valueMap := map[];
      ok := Match("{");
      if !ok {
        return;
      }
      ok := Match("}");
      if ok {
        return;
      }
      ghost var start := pos;
      var comma := true;
      while comma
        invariant Valid() && start <= pos && old(pos) < start
        invariant comma ==>
          Scan.ParseMembers(data, start, map[]) == Scan.ParseMembers(data, pos, valueMap)
        invariant !comma ==>
          Scan.ParseMembers(data, start, map[]) == Scan.Match(data, pos, "}").With(valueMap)
        decreases comma, |data| - pos
      {
        var key: string;
        ok, key := ParseString();
        if !ok {
          if pos < |data| && data[pos] == '}' {
            break;
          }
          return;
        }
        ok := Match(":");
        if !ok {
          return;
        }
        var v: Value;
        ok, v := ParseValue();
        if !ok {
          break;
        }
        valueMap := valueMap[key := v];
        comma := Match(",");
      }
      ok := Match("}");
    }
  }
}

/** The jsonxx printer as it runs, proved to produce the text of JsonText. */
module JsonPrinter {
  import opened JsonTree
  import Text = JsonText

  method EscapeString(input: string) returns (output: string)
    ensures output == Text.Escape(input)
  {
    output := "";
    var i := 0;
    while i < |input|
      invariant i <= |input|
      invariant output + Text.Escape(input[i..]) == Text.Escape(input)
    {
      assert input[i..][1..] == input[i + 1..];
      output := output + Text.EscapeChar(input[i]);
      i := i + 1;
    }
    assert input[i..] == "";
  }

  method RemoveLastComma(input: string) returns (output: string)
    ensures output == Text.RemoveLastComma(input)
    ensures |output| == |input|
    ensures forall i :: 0 <= i < |input| && output[i] != input[i] ==>
      i == |input| - 2 && i > 0 && input[i] == ',' && output[i] == ' '
    ensures |input| > 2 ==> output[|input| - 2] != ','
  {
    output := input;
    var size := |output|;
    if size > 2 {
      if output[size - 2] == ',' {
        output := output[size - 2 := ' '];
      }
    }
  }

  /** `json::tag`: the opening, the children one after the other, the patch, the closing. */
  method Tag(depth: nat, name: string, t: Value) returns (r: string)
    ensures r == Text.Tag(depth, name, t)
    decreases t, 1
  {
    var tab := Text.Tabs(depth);
    var ss := tab;
    if name != "" {
      var key := EscapeString(name);
      ss := ss + "\"" + key + "\": ";
    }
    match t
    case Array(elems) =>
      r := ss + "[\n";
      var children := TagElements(depth + 1, t);
      r := RemoveLastComma(r + children);
      r := r + tab + "]" + ",\n";
    case Object(members) =>
      r := ss + "{\n";
      var children := TagMembers(depth + 1, t);
      r := RemoveLastComma(r + children);
      r := r + tab + "}" + ",\n";
    case String(s) =>
      var escaped := EscapeString(s);
      assert Text.Scalar(t) == "\"" + escaped + "\"";
      r := ss + ("\"" + escaped + "\"") + ",\n";
    case _ => r := ss + Text.Scalar(t) + ",\n";
  }

  method TagElements(depth: nat, t: Value) returns (r: string)
    requires t.Array?
    ensures r == Text.TagElements(depth, t, 0)
    decreases t, 0
  {
    hide Text.TagElements, Text.Tag;
    r := "";
    for i := 0 to |t.elems|
      invariant r + Text.TagElements(depth, t, i) == Text.TagElements(depth, t, 0)
    {
      var child := Tag(depth, "", t.elems[i]);
      Text.TagElementsFrom(depth, t, i);
      ghost var rest := Text.TagElements(depth, t, i + 1);
      Text.Regroup(r, child, rest);
      r := r + child;
    }
    Text.TagNothingMore(depth, t);
  }

  method TagMembers(depth: nat, t: Value) returns (r: string)
    requires t.Object?
    ensures r == Text.TagMembers(depth, t, 0)
    decreases t, 0
  {
    hide Text.TagMembers, Text.Tag, Text.Keys;
    var keys := Text.Keys(t);
    r := "";
    for i := 0 to |keys|
      invariant r + Text.TagMembers(depth, t, i) == Text.TagMembers(depth, t, 0)
    {
      Text.TagMembersFrom(depth, t, i);
      var child := Tag(depth, keys[i], t.members[keys[i]]);
      ghost var rest := Text.TagMembers(depth, t, i + 1);
      Text.Regroup(r, child, rest);
      r := r + child;
    }
    Text.TagNothingMore(depth, t);
  }

  /** `Object::json` and `Array::json`. */
  method Json(t: Value) returns (r: string)
    requires t.Array? || t.Object?
    ensures r == Text.Json(t)
  {
    r := Tag(0, "", t);
    r := RemoveLastComma(r);
  }
}

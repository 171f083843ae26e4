/** The text that Object::json and Array::json produce. `Tag` follows the C++ printer, which ends
    every child with `,\n` and then blanks the last comma out of the finished text; `Plain` is a
    printer that puts `,\n` between children in the first place. */
module JsonText {
  import opened JsonTree
  import opened Decimals
  import opened Texts
  import KeyOrder

  function LowerHex(d: nat): char
    requires d < 16
  {
    if d < 10 then (d + '0' as nat) as char else (d - 10 + 'a' as nat) as char
  }

  /** The entry of `escape_string`'s table for one character. */
  function EscapeChar(c: char): (r: string)
    ensures r != ""
  {
    if c == '"' then "\\\""
    else if c == '\\' then "\\\\"
    else if c == '/' then "\\/"
    else if c as int == 8 then "\\b"
    else if c as int == 12 then "\\f"
    else if c == '\n' then "\\n"
    else if c == '\r' then "\\r"
    else if c == '\t' then "\\t"
    else if c as int < 32 then "\\u00" + [LowerHex(c as nat / 16), LowerHex(c as nat % 16)]
    else [c]
  }

  /** `escape_string`. */
  function Escape(s: string): string {
    if s == "" then "" else EscapeChar(s[0]) + Escape(s[1..])
  }

  /** `remove_last_comma`. */
  function RemoveLastComma(t: string): string {
    if |t| > 2 && t[|t| - 2] == ',' then t[|t| - 2 := ' '] else t
  }

  function Tabs(depth: nat): (r: string)
    ensures |r| == depth && forall i :: 0 <= i < depth ==> r[i] == '\t'
  {
    seq(depth, i => '\t')
  }

  /** The indentation and, for a named value, the key. An empty name prints no key. */
  function Head(depth: nat, name: string): string {
    if name != "" then Tabs(depth) + "\"" + Escape(name) + "\": " else Tabs(depth)
  }

  /** The text of a value that is neither an array nor an object. */
  function Scalar(v: Value): (r: string)
    ensures r != ""
  {
    match v
    case Number(n) => PrintNumber(n)
    case String(s) => "\"" + Escape(s) + "\""
    case Boolean(b) => if b then "true" else "false"
    case _ => "null"
  }

  function Keys(v: Value): seq<string>
    requires v.Object?
  {
    KeyOrder.Sorted(v.members.Keys)
  }

  /** `json::tag`. */
  function Tag(depth: nat, name: string, v: Value): string
    decreases v, 1, 0
  {
    match v
    case Array(elems) =>
      RemoveLastComma(Head(depth, name) + "[\n" + TagElements(depth + 1, v, 0))
      + Tabs(depth) + "]" + ",\n"
    case Object(members) =>
      RemoveLastComma(Head(depth, name) + "{\n" + TagMembers(depth + 1, v, 0))
      + Tabs(depth) + "}" + ",\n"
    case _ => Head(depth, name) + Scalar(v) + ",\n"
  }

  /** The elements from the n-th on, each with its separator. */
  function TagElements(depth: nat, v: Value, n: nat): string
    requires v.Array? && n <= |v.elems|
    decreases v, 0, |v.elems| - n
  {
    if n == |v.elems| then "" else Tag(depth, "", v.elems[n]) + TagElements(depth, v, n + 1)
  }

  /** The members from the n-th key on, each with its separator. */
  function TagMembers(depth: nat, v: Value, n: nat): string
    requires v.Object? && n <= |Keys(v)|
    decreases v, 0, |Keys(v)| - n
  {
    if n == |Keys(v)| then ""
    else
      var k := Keys(v)[n];
      assert k in Keys(v);
      Tag(depth, k, v.members[k]) + TagMembers(depth, v, n + 1)
  }

  lemma KeyOfMember(v: Value, n: nat)
    requires v.Object? && n < |Keys(v)|
    ensures Keys(v)[n] in v.members
  {
    assert Keys(v)[n] in Keys(v);
  }

  lemma TagElementsFrom(depth: nat, v: Value, n: nat)
    requires v.Array? && n < |v.elems|
    ensures TagElements(depth, v, n) == Tag(depth, "", v.elems[n]) + TagElements(depth, v, n + 1)
  {
  }

  lemma TagMembersFrom(depth: nat, v: Value, n: nat)
    requires v.Object? && n < |Keys(v)|
    ensures Keys(v)[n] in v.members
    ensures TagMembers(depth, v, n)
         == Tag(depth, Keys(v)[n], v.members[Keys(v)[n]]) + TagMembers(depth, v, n + 1)
  {
    KeyOfMember(v, n);
  }

  lemma Regroup(a: string, b: string, c: string)
    ensures a + (b + c) == a + b + c
  {
  }

  lemma TagNothingMore(depth: nat, v: Value)
    ensures v.Array? ==> TagElements(depth, v, |v.elems|) == ""
    ensures v.Object? ==> TagMembers(depth, v, |Keys(v)|) == ""
    ensures v.Array? ==> PlainElements(depth, v, |v.elems|) == ""
    ensures v.Object? ==> PlainMembers(depth, v, |Keys(v)|) == ""
  {
  }

  /** `Object::json` and `Array::json`. */
  function Json(v: Value): string
    requires v.Array? || v.Object?
  {
    RemoveLastComma(Tag(0, "", v))
  }

  /** The text of a value without a separator after it. */
  function Plain(depth: nat, name: string, v: Value): (r: string)
    ensures r != ""
    decreases v, 1, 0
  {
    Head(depth, name) + Body(depth, v)
  }

  function Body(depth: nat, v: Value): (r: string)
    ensures r != ""
    decreases v, 0, 1, 0
  {
    match v
    case Array(elems) =>
      "[\n" + PlainElements(depth + 1, v, 0) + Ending(|elems|) + Tabs(depth) + "]"
    case Object(members) =>
      "{\n" + PlainMembers(depth + 1, v, 0) + Ending(|Keys(v)|) + Tabs(depth) + "}"
    case _ => Scalar(v)
  }

  /** What stands between the last child and the closing bracket. */
  function Ending(children: nat): string { if children == 0 then "" else " \n" }

  /** The elements from the n-th on, with separators between them. */
  function PlainElements(depth: nat, v: Value, n: nat): (r: string)
    requires v.Array? && n <= |v.elems|
    ensures n < |v.elems| ==> r != ""
    decreases v, 0, 0, |v.elems| - n
  {
    if n == |v.elems| then ""
    else if n + 1 == |v.elems| then Plain(depth, "", v.elems[n])
    else Plain(depth, "", v.elems[n]) + ",\n" + PlainElements(depth, v, n + 1)
  }

  /** The members from the n-th key on, with separators between them. */
  function PlainMembers(depth: nat, v: Value, n: nat): (r: string)
    requires v.Object? && n <= |Keys(v)|
    ensures n < |Keys(v)| ==> r != ""
    decreases v, 0, 0, |Keys(v)| - n
  {
    if n == |Keys(v)| then ""
    else
      var k := Keys(v)[n];
      assert k in Keys(v);
      if n + 1 == |Keys(v)| then Plain(depth, k, v.members[k])
      else Plain(depth, k, v.members[k]) + ",\n" + PlainMembers(depth, v, n + 1)
  }

  /** In the finished text of a container with children, only the separator after the last child
      is blanked. */
  lemma PatchLast(head: string, open: string, inside: string, tabs: string, close: string)
    requires inside != ""
    ensures RemoveLastComma(head + open + (inside + ",\n")) + tabs + close + ",\n"
         == head + (open + inside + " \n" + tabs + close) + ",\n"
  {
    var t := head + open + inside;
    assert head + open + (inside + ",\n") == t + ",\n";
    assert RemoveLastComma(t + ",\n") == t + " \n";
  }

  /** A container without children keeps its text. */
  lemma PatchNone(head: string, open: string, tabs: string, close: string)
    requires |open| == 2 && open[0] != ','
    ensures RemoveLastComma(head + open + "") + tabs + close + ",\n"
         == head + (open + "" + "" + tabs + close) + ",\n"
  {
    assert head + open + "" == head + open;
    assert RemoveLastComma(head + open) == head + open;
  }

  /** Patching the finished text gives the comma-joined printer at every level: the separator
      after the last child is the only thing that changes, whatever keys and strings contain. */
  lemma {:induction false} TagIsPlain(depth: nat, name: string, v: Value)
    ensures Tag(depth, name, v) == Plain(depth, name, v) + ",\n"
    decreases v, 1, 0
  {
    match v
    case Array(elems) => TagArrayIsPlain(depth, name, v);
    case Object(members) => TagObjectIsPlain(depth, name, v);
    case _ =>
  }

  lemma {:induction false} TagArrayIsPlain(depth: nat, name: string, v: Value)
    requires v.Array?
    ensures Tag(depth, name, v) == Plain(depth, name, v) + ",\n"
    decreases v, 0, |v.elems| + 1
  {
    hide Head, Tabs, RemoveLastComma, TagElements, PlainElements, Scalar;
    if |v.elems| == 0 {
      TagNothingMore(depth + 1, v);
      PatchNone(Head(depth, name), "[\n", Tabs(depth), "]");
    } else {
      TagElementsIsPlain(depth + 1, v, 0);
      PatchLast(Head(depth, name), "[\n", PlainElements(depth + 1, v, 0), Tabs(depth), "]");
    }
  }

  lemma {:induction false} TagObjectIsPlain(depth: nat, name: string, v: Value)
    requires v.Object?
    ensures Tag(depth, name, v) == Plain(depth, name, v) + ",\n"
    decreases v, 0, |Keys(v)| + 1
  {
    hide Head, Tabs, RemoveLastComma, TagMembers, PlainMembers, Scalar, Keys;
    if |Keys(v)| == 0 {
      TagNothingMore(depth + 1, v);
      PatchNone(Head(depth, name), "{\n", Tabs(depth), "}");
    } else {
      TagMembersIsPlain(depth + 1, v, 0);
      PatchLast(Head(depth, name), "{\n", PlainMembers(depth + 1, v, 0), Tabs(depth), "}");
    }
  }

  lemma {:induction false} TagElementsIsPlain(depth: nat, v: Value, n: nat)
    requires v.Array? && n < |v.elems|
    ensures TagElements(depth, v, n) == PlainElements(depth, v, n) + ",\n"
    decreases v, 0, |v.elems| - n
  {
    hide Tag, Plain;
    TagIsPlain(depth, "", v.elems[n]);
    if n + 1 < |v.elems| {
      TagElementsIsPlain(depth, v, n + 1);
    } else {
      assert TagElements(depth, v, n + 1) == "";
    }
  }

  lemma {:induction false} TagMembersIsPlain(depth: nat, v: Value, n: nat)
    requires v.Object? && n < |Keys(v)|
    ensures TagMembers(depth, v, n) == PlainMembers(depth, v, n) + ",\n"
    decreases v, 0, |Keys(v)| - n
  {
    hide Tag, Plain, Keys;
    var k := Keys(v)[n];
    KeyOfMember(v, n);
    TagIsPlain(depth, k, v.members[k]);
    if n + 1 < |Keys(v)| {
      TagMembersIsPlain(depth, v, n + 1);
    } else {
      assert TagMembers(depth, v, n + 1) == "";
    }
  }

  lemma JsonIsPlain(v: Value)
    requires v.Array? || v.Object?
    ensures Json(v) == Plain(0, "", v) + " \n"
  {
    hide Tag, Plain;
    TagIsPlain(0, "", v);
    var t := Plain(0, "", v);
    assert RemoveLastComma(t + ",\n") == t + " \n";
  }
}

/** The configuration store: scalar values under `/`-separated paths in a JSON object
    (src/Core/Config.cpp). */
module Config {
  import opened JsonTree
  import opened Decimals
  import opened Options
  import opened Texts
  import Text = JsonText
  import Scan = JsonScan
  import Printer = JsonPrinter
  import Parser = JsonParser
  import RoundTrip = JsonRoundTrip
  import EmptyKeys = JsonEmptyKeys

  type Members = map<string, Value>

  // Paths

  /** `name.find('/', from)`; the length of the name when there is none. */
  function Find(name: string, from: nat): (r: nat)
    requires from <= |name|
    ensures from <= r <= |name|
    ensures r < |name| ==> name[r] == '/'
    decreases |name| - from
  {
    if from == |name| || name[from] == '/' then from else Find(name, from + 1)
  }

  /** The sections of a name from a position on; there is always at least one. */
  function Split(name: string, from: nat): (r: seq<string>)
    requires from <= |name|
    ensures r != []
    decreases |name| - from
  {
    var d := Find(name, from);
    if d == |name| then [name[from..]] else [name[from..d]] + Split(name, d + 1)
  }

  function LastSection(name: string): string { Split(name, 0)[|Split(name, 0)| - 1] }

  lemma SplitStep(name: string, from: nat)
    requires from <= |name|
    ensures var d := Find(name, from);
      Split(name, from) == if d == |name| then [name[from..]] else [name[from..d]] + Split(name, d + 1)
  {
  }

  /** The sections with a slash between each two. */
  function Join(sections: seq<string>): string
    requires sections != []
  {
    if |sections| == 1 then sections[0] else sections[0] + "/" + Join(sections[1..])
  }

  predicate NoSlash(sections: seq<string>) { forall i :: 0 <= i < |sections| ==> '/' !in sections[i] }

  lemma {:induction false} FindIsFirst(name: string, from: nat)
    requires from <= |name|
    ensures '/' !in name[from..Find(name, from)]
    decreases |name| - from
  {
    if from < |name| && name[from] != '/' {
      FindIsFirst(name, from + 1);
      assert name[from..Find(name, from)] == [name[from]] + name[from + 1..Find(name, from)];
    }
  }

  lemma {:induction false} SplitParts(name: string, from: nat)
    requires from <= |name|
    ensures Join(Split(name, from)) == name[from..] && NoSlash(Split(name, from))
    decreases |name| - from
  {
    var d := Find(name, from);
    FindIsFirst(name, from);
    if d == |name| {
      assert name[from..d] == name[from..];
    } else {
      SplitParts(name, d + 1);
      assert name[from..] == name[from..d] + "/" + name[d + 1..];
    }
  }

  lemma {:induction false} FindAfter(name: string, from: nat, section: string)
    requires from + |section| <= |name| && name[from..from + |section|] == section && '/' !in section
    requires from + |section| == |name| || name[from + |section|] == '/'
    ensures Find(name, from) == from + |section|
    decreases |section|
  {
    if section != "" {
      assert name[from] == section[0];
      assert name[from + 1..from + |section|] == section[1..];
      FindAfter(name, from + 1, section[1..]);
    }
  }

  lemma {:induction false} SplitOfJoin(name: string, from: nat, sections: seq<string>)
    requires sections != [] && NoSlash(sections) && from <= |name| && name[from..] == Join(sections)
    ensures Split(name, from) == sections
    decreases |sections|
  {
    var first := sections[0];
    assert '/' !in first;
    if |sections| == 1 {
      assert Join(sections) == first + "";
      Cut(name, from, first, "");
      FindAfter(name, from, first);
    } else {
      assert Join(sections) == first + ("/" + Join(sections[1..]));
      Cut(name, from, first, "/" + Join(sections[1..]));
      FindAfter(name, from, first);
      SplitOfJoin(name, from + |first| + 1, sections[1..]);
    }
  }

  /** The sections of a name are the texts without a slash that, joined by slashes, are the name;
      there is one such list. */
  lemma SplitExactly(name: string, sections: seq<string>)
    requires sections != []
    ensures sections == Split(name, 0) <==> Join(sections) == name && NoSlash(sections)
  {
    assert name[0..] == name;
    SplitParts(name, 0);
    if Join(sections) == name && NoSlash(sections) {
      SplitOfJoin(name, 0, sections);
    }
  }

  // Recursive descent over a path: the reference for the scanning loops below

  predicate HasObject(o: Members, k: string) { k in o && o[k].Object? }

  function Sub(o: Members, k: string): Members {
    if HasObject(o, k) then o[k].members else map[]
  }

  function Lookup(o: Members, path: seq<string>): Option<Value>
    requires path != []
    decreases |path|
  {
    if |path| == 1 then
      if path[0] in o then Some(o[path[0]]) else None
    else if HasObject(o, path[0]) then Lookup(o[path[0]].members, path[1..])
    else None
  }

  /** Makes the missing sections on the way and writes the value, if there is one, under the last. */
  function Write(o: Members, path: seq<string>, v: Option<Value>): Members
    requires path != []
    decreases |path|
  {
    if |path| == 1 then
      if v.Some? then o[path[0] := v.value] else o
    else o[path[0] := Object(Write(Sub(o, path[0]), path[1..], v))]
  }

  function Put(o: Members, path: seq<string>, v: Value): Members
    requires path != []
  {
    Write(o, path, Some(v))
  }

  /** The objects named by all sections but the last exist. */
  predicate Reachable(o: Members, path: seq<string>)
    requires path != []
    decreases |path|
  {
    |path| == 1 || (HasObject(o, path[0]) && Reachable(o[path[0]].members, path[1..]))
  }

  function PutNull(o: Members, path: seq<string>): Members
    requires path != []
  {
    if Reachable(o, path) then Put(o, path, Null) else o
  }

  /** The types a caller can ask for. */
  datatype Kind = StringKind | NumberKind | BooleanKind

  predicate Is(v: Value, kind: Kind) {
    match kind
    case StringKind => v.String?
    case NumberKind => v.Number?
    case BooleanKind => v.Boolean?
  }

  function Get(o: Members, path: seq<string>, kind: Kind): Option<Value>
    requires path != []
  {
    var found := Lookup(o, path);
    if found.Some? && Is(found.value, kind) then found else None
  }

  // Path laws

  predicate ProperPrefix(p: seq<string>, q: seq<string>) { |p| < |q| && p == q[..|p|] }

  lemma {:induction false} LookupAfterPut(o: Members, p: seq<string>, v: Value, q: seq<string>)
    requires p != [] && q != []
    ensures var r := Lookup(Put(o, p, v), q);
      && (q == p ==> r == Some(v))
      && (ProperPrefix(q, p) ==> r.Some? && r.value.Object?)
      && (ProperPrefix(p, q) && !v.Object? ==> r == None)
      && (q != p && !ProperPrefix(q, p) && !ProperPrefix(p, q) ==> r == Lookup(o, q))
    decreases |p|
  {
    assert p == [p[0]] + p[1..] && q == [q[0]] + q[1..];
    if p[0] == q[0] && |p| > 1 && |q| > 1 {
      var p', q' := p[1..], q[1..];
      LookupAfterPut(Sub(o, p[0]), p', v, q');
      assert q == p <==> q' == p';
      PrefixTail(p, q);
      PrefixTail(q, p);
      if !HasObject(o, p[0]) {
        EmptyHasNothing(q');
      }
    }
  }

  lemma PrefixTail(p: seq<string>, q: seq<string>)
    requires |p| > 1 && |q| > 1 && p[0] == q[0]
    ensures ProperPrefix(p, q) <==> ProperPrefix(p[1..], q[1..])
  {
    if |p| < |q| {
      assert q[1..][..|p| - 1] == q[..|p|][1..];
      assert p == [p[0]] + p[1..] && q[..|p|] == [q[0]] + q[..|p|][1..];
    }
  }

  lemma EmptyHasNothing(q: seq<string>)
    requires q != []
    ensures Lookup(map[], q) == None
  {
  }

  /** What every typed read gives after a scalar is set, for every path: the value at the path
      itself, nothing at the paths above and below it, and what it was everywhere else. */
  lemma GetAfterSet(o: Members, p: seq<string>, v: Value, q: seq<string>, kind: Kind)
    requires p != [] && q != [] && !v.Object?
    ensures Get(Put(o, p, v), q, kind)
         == if q == p then (if Is(v, kind) then Some(v) else None)
            else if ProperPrefix(q, p) || ProperPrefix(p, q) then None
            else Get(o, q, kind)
  {
    LookupAfterPut(o, p, v, q);
  }

  lemma {:induction false} UnreachableHasNothing(o: Members, p: seq<string>, q: seq<string>)
    requires p != [] && q != [] && !Reachable(o, p) && (q == p || ProperPrefix(p, q))
    ensures Lookup(o, q) == None
    decreases |p|
  {
    assert p == [p[0]] + p[1..] && q == [q[0]] + q[1..];
    assert q[0] == p[0];
    if HasObject(o, p[0]) {
      if q != p {
        PrefixTail(p, q);
      }
      UnreachableHasNothing(o[p[0]].members, p[1..], q[1..]);
    }
  }

  /** What every typed read gives after SetNull, for every pair of paths: nothing at or below the
      path, and what it was everywhere else. */
  lemma GetAfterSetNull(o: Members, p: seq<string>, q: seq<string>, kind: Kind)
    requires p != [] && q != []
    ensures Get(PutNull(o, p), q, kind) == if q == p || ProperPrefix(p, q) then None else Get(o, q, kind)
  {
    if Reachable(o, p) {
      GetAfterSet(o, p, Null, q, kind);
      if ProperPrefix(q, p) {
        PrefixIsObject(o, p, q);
      }
    } else if q == p || ProperPrefix(p, q) {
      UnreachableHasNothing(o, p, q);
    }
  }

  lemma {:induction false} PrefixIsObject(o: Members, p: seq<string>, q: seq<string>)
    requires p != [] && q != [] && Reachable(o, p) && ProperPrefix(q, p)
    ensures Lookup(o, q).Some? && Lookup(o, q).value.Object?
    decreases |q|
  {
    assert p[0] == q[0];
    if |q| > 1 {
      PrefixTail(q, p);
      PrefixIsObject(o[p[0]].members, p[1..], q[1..]);
    }
  }

  /** The second of two writes to one path is the one that counts. */
  lemma {:induction false} PutPut(o: Members, p: seq<string>, v: Value, w: Value)
    requires p != []
    ensures Put(Put(o, p, v), p, w) == Put(o, p, w)
    decreases |p|
  {
    if |p| > 1 {
      PutPut(Sub(o, p[0]), p[1..], v, w);
    }
  }

  /** Writing back what is there changes nothing. */
  lemma {:induction false} PutSame(o: Members, p: seq<string>)
    requires p != [] && Lookup(o, p).Some?
    ensures Put(o, p, Lookup(o, p).value) == o
    decreases |p|
  {
    if |p| > 1 {
      PutSame(o[p[0]].members, p[1..]);
    }
  }

  /** The typed reads: what is asked for is what is found, or nothing. */
  lemma ReadsAreTyped(o: Members, path: seq<string>)
    requires path != []
    ensures var v := Lookup(o, path);
      && (Get(o, path, StringKind) == if v.Some? && v.value.String? then v else None)
      && (Get(o, path, NumberKind) == if v.Some? && v.value.Number? then v else None)
      && (Get(o, path, BooleanKind) == if v.Some? && v.value.Boolean? then v else None)
  {
  }

  lemma SplitAtSlash(a: string, b: string)
    requires '/' !in a
    ensures Split(a + "/" + b, 0) == [a] + Split(b, 0)
    ensures Split(a, 0) == [a]
  {
    SplitExactly(b, Split(b, 0));
    assert ([a] + Split(b, 0))[1..] == Split(b, 0);
    SplitExactly(a + "/" + b, [a] + Split(b, 0));
    SplitExactly(a, [a]);
  }

  /** A name with a slash is a name within the section in front of its first slash: a read finds what
      the section has, a write goes into the section, and a null there takes the section away. */
  lemma NamesAreNested(o: Members, a: string, b: string, v: Value, kind: Kind)
    requires '/' !in a
    ensures Get(o, Split(a + "/" + b, 0), kind)
         == if a in o && o[a].Object? then Get(o[a].members, Split(b, 0), kind) else None
    ensures Put(o, Split(a + "/" + b, 0), v)
         == o[a := Object(Put(if a in o && o[a].Object? then o[a].members else map[], Split(b, 0), v))]
    ensures PutNull(o, Split(a, 0)) == o[a := Null]
    ensures Get(PutNull(Put(o, Split(a + "/" + b, 0), v), Split(a, 0)), Split(a + "/" + b, 0), kind) == None
  {
    hide Split;
    SplitAtSlash(a, b);
    var path := [a] + Split(b, 0);
    assert path[0] == a && path[1..] == Split(b, 0);
    var after := Put(o, path, v);
    assert PutNull(after, [a]) == after[a := Null];
  }

  // The pending key of `operator<<`

  /** A jsonxx object while pairs are streamed into it; `odd` is the key waiting for its value. */
  datatype Streaming = Streaming(members: Members, odd: string)

  /** `operator<<(const Value &)`. None where the program asks a non-string for its text, which has
      no defined result. */
  function Shift(s: Streaming, v: Value): Option<Streaming> {
    if s.odd != "" then Some(Streaming(s.members[s.odd := v], ""))
    else if v.String? then Some(Streaming(s.members, v.text))
    else None
  }

  /** `operator<<(const Object &)`. */
  function ShiftObject(s: Streaming, o: Members): Streaming {
    Streaming(s.members[s.odd := Object(o)], "")
  }

  function ShiftPair(m: Members, key: string, v: Value): Option<Streaming> {
    var s := Shift(Streaming(m, ""), String(key));
    if s.None? then None else Shift(s.value, v)
  }

  /** Streaming a key and then a value stores the pair and leaves no key pending, exactly when the
      key is not empty; after an empty key the value becomes the pending key, or is not defined. */
  lemma PairIsStored(m: Members, key: string, v: Value)
    ensures key != "" ==> ShiftPair(m, key, v) == Some(Streaming(m[key := v], ""))
    ensures key == "" && v.String? ==> ShiftPair(m, key, v) == Some(Streaming(m, v.text))
    ensures key == "" && !v.String? ==> ShiftPair(m, key, v) == None
  {
  }

  /** An object is stored under any key, also the empty one. */
  lemma SectionIsStored(m: Members, key: string, o: Members)
    ensures var s := Shift(Streaming(m, ""), String(key));
      s.Some? && ShiftObject(s.value, o) == Streaming(m[key := Object(o)], "")
  {
  }

  // A pointer to a nested object, as the path of keys that leads to it

  predicate LeadsToObject(o: Members, at: seq<string>)
    decreases |at|
  {
    at == [] || (HasObject(o, at[0]) && LeadsToObject(o[at[0]].members, at[1..]))
  }

  function ObjectAt(o: Members, at: seq<string>): Members
    requires LeadsToObject(o, at)
    decreases |at|
  {
    if at == [] then o else ObjectAt(o[at[0]].members, at[1..])
  }

  function ReplaceAt(o: Members, at: seq<string>, x: Members): Members
    requires LeadsToObject(o, at)
    decreases |at|
  {
    if at == [] then x else o[at[0] := Object(ReplaceAt(o[at[0]].members, at[1..], x))]
  }

  lemma {:induction false} ReplaceThenRead(o: Members, at: seq<string>, x: Members)
    requires LeadsToObject(o, at)
    ensures LeadsToObject(ReplaceAt(o, at, x), at) && ObjectAt(ReplaceAt(o, at, x), at) == x
    decreases |at|
  {
    if at != [] {
      ReplaceThenRead(o[at[0]].members, at[1..], x);
    }
  }

  lemma {:induction false} ReplaceTwice(o: Members, at: seq<string>, x: Members, y: Members)
    requires LeadsToObject(o, at)
    ensures LeadsToObject(ReplaceAt(o, at, x), at)
    ensures ReplaceAt(ReplaceAt(o, at, x), at, y) == ReplaceAt(o, at, y)
    decreases |at|
  {
    if at != [] {
      ReplaceTwice(o[at[0]].members, at[1..], x, y);
    }
  }

  lemma {:induction false} PutThrough(o: Members, at: seq<string>, rest: seq<string>, v: Option<Value>)
    requires LeadsToObject(o, at) && rest != []
    ensures Write(o, at + rest, v) == ReplaceAt(o, at, Write(ObjectAt(o, at), rest, v))
    ensures Reachable(o, at + rest) == Reachable(ObjectAt(o, at), rest)
    ensures Lookup(o, at + rest) == Lookup(ObjectAt(o, at), rest)
    decreases |at|
  {
    if at == [] {
      assert at + rest == rest;
    } else {
      assert (at + rest)[1..] == at[1..] + rest;
      PutThrough(o[at[0]].members, at[1..], rest, v);
    }
  }

  lemma {:induction false} StepDown(o: Members, at: seq<string>, k: string)
    requires LeadsToObject(o, at) && HasObject(ObjectAt(o, at), k)
    ensures LeadsToObject(o, at + [k]) && ObjectAt(o, at + [k]) == ObjectAt(o, at)[k].members
    decreases |at|
  {
    if at == [] {
      assert at + [k] == [k] && [k][1..] == [];
      assert LeadsToObject(o[k].members, []);
    } else {
      assert (at + [k])[1..] == at[1..] + [k];
      StepDown(o[at[0]].members, at[1..], k);
    }
  }

  /** Creating an empty section on the way down does not change what the write ends up with. */
  lemma MakeSection(o: Members, at: seq<string>, k: string, rest: seq<string>, v: Option<Value>)
    requires LeadsToObject(o, at) && rest != [] && !HasObject(ObjectAt(o, at), k)
    ensures var o' := ReplaceAt(o, at, ObjectAt(o, at)[k := Object(map[])]);
      && LeadsToObject(o', at) && HasObject(ObjectAt(o', at), k)
      && Write(o', at + ([k] + rest), v) == Write(o, at + ([k] + rest), v)
  {
    var cur := ObjectAt(o, at);
    var made := cur[k := Object(map[])];
    var o' := ReplaceAt(o, at, made);
    ReplaceThenRead(o, at, made);
    PutThrough(o, at, [k] + rest, v);
    PutThrough(o', at, [k] + rest, v);
    assert ([k] + rest)[1..] == rest;
    assert Write(made, [k] + rest, v) == Write(cur, [k] + rest, v);
    ReplaceTwice(o, at, made, Write(cur, [k] + rest, v));
  }

  lemma TopIsObject(o: Members)
    ensures LeadsToObject(o, []) && ObjectAt(o, []) == o
  {
  }

  lemma PutHere(o: Members, at: seq<string>, k: string, v: Value)
    requires LeadsToObject(o, at)
    ensures Put(o, at + [k], v) == ReplaceAt(o, at, ObjectAt(o, at)[k := v])
    ensures Write(o, at + [k], None) == o
    ensures Reachable(o, at + [k])
  {
    PutThrough(o, at, [k], Some(v));
    PutThrough(o, at, [k], None);
    ReplaceSame(o, at);
  }

  lemma {:induction false} ReplaceSame(o: Members, at: seq<string>)
    requires LeadsToObject(o, at)
    ensures ReplaceAt(o, at, ObjectAt(o, at)) == o
    decreases |at|
  {
    if at != [] {
      ReplaceSame(o[at[0]].members, at[1..]);
    }
  }

  lemma MissingSection(o: Members, at: seq<string>, k: string, rest: seq<string>)
    requires LeadsToObject(o, at) && rest != [] && !HasObject(ObjectAt(o, at), k)
    ensures !Reachable(o, at + ([k] + rest))
  {
    PutThrough(o, at, [k] + rest, None);
  }

  // Persistence

  /** What a configuration holds: no empty section name, no unassigned value. */
  ghost predicate Storable(o: Members) { NoEmptyKey(Object(o)) && NoInvalid(Object(o)) }

  predicate NonEmptySections(path: seq<string>) { forall i :: 0 <= i < |path| ==> path[i] != "" }

  predicate StorableScalar(v: Value) {
    match v
    case Number(_) => true
    case String(_) => true
    case Boolean(_) => true
    case Null => true
    case _ => false
  }

  lemma {:induction false} PutKeepsStorable(o: Members, p: seq<string>, v: Value)
    requires Storable(o) && p != [] && NonEmptySections(p) && StorableScalar(v)
    ensures Storable(Put(o, p, v))
    decreases |p|
  {
    if |p| > 1 {
      if HasObject(o, p[0]) {
        assert o[p[0]] == Object(o[p[0]].members);
      }
      PutKeepsStorable(Sub(o, p[0]), p[1..], v);
    }
  }

  /** What Load finds after Save. */
  function Reload(o: Members): Scan.Read<Members> { Scan.ParseObject(Text.Json(Object(o)), 0) }

  /** A storable configuration comes back, its numbers rounded to sixteen significant digits. */
  lemma SaveThenLoad(o: Members)
    requires Storable(o)
    ensures Reload(o).ok && Reload(o).value == Normal(Object(o)).members
    ensures ShortNumbers(Object(o)) ==> Reload(o).value == o
  {
    RoundTrip.ObjectRoundTrip(Object(o));
    NormalKeepsExactly(Object(o));
  }

  /** Whatever a configuration came to hold, for instance by loading a file, saving and loading it
      again restores it, up to that rounding and unassigned values, exactly when no key in it is
      empty. */
  lemma SaveThenLoadExactly(o: Members)
    ensures Reload(o).ok && Reload(o).value == Normal(Object(o)).members <==> NoEmptyKey(Object(o))
    ensures NoInvalid(Object(o)) && ShortNumbers(Object(o)) ==>
      (Reload(o).ok && Reload(o).value == o <==> NoEmptyKey(Object(o)))
  {
    EmptyKeys.ObjectRoundTripExactly(Object(o));
    NormalKeepsExactly(Object(o));
  }

  /** A call that changes the configuration. */
  datatype Change = Set(name: string, value: Value) | SetNull(name: string)

  function Apply(o: Members, c: Change): Members {
    match c
    case Set(name, v) => Put(o, Split(name, 0), v)
    case SetNull(name) => PutNull(o, Split(name, 0))
  }

  function Run(o: Members, changes: seq<Change>): Members {
    if changes == [] then o else Apply(Run(o, changes[..|changes| - 1]), changes[|changes| - 1])
  }

  predicate Proper(c: Change) {
    && NonEmptySections(Split(c.name, 0))
    && (c.Set? ==> StorableScalar(c.value))
  }

  lemma {:induction false} RunKeepsStorable(o: Members, changes: seq<Change>)
    requires Storable(o) && forall i :: 0 <= i < |changes| ==> Proper(changes[i])
    ensures Storable(Run(o, changes))
    decreases |changes|
  {
    if changes != [] {
      var n := |changes| - 1;
      RunKeepsStorable(o, changes[..n]);
      var before := Run(o, changes[..n]);
      match changes[n]
      case Set(name, v) => PutKeepsStorable(before, Split(name, 0), v);
      case SetNull(name) =>
        if Reachable(before, Split(name, 0)) {
          PutKeepsStorable(before, Split(name, 0), Null);
        }
    }
  }

  lemma {:induction false} LookupNormal(o: Members, path: seq<string>)
    requires path != []
    ensures var l := Lookup(o, path);
      Lookup(Normal(Object(o)).members, path) == if l.Some? then Some(Normal(l.value)) else None
    decreases |path|
  {
    var n := Normal(Object(o)).members;
    if path[0] in o {
      assert n[path[0]] == Normal(o[path[0]]);
      if |path| > 1 && HasObject(o, path[0]) {
        LookupNormal(o[path[0]].members, path[1..]);
      }
    }
  }

  /** What a value becomes in the file. */
  function Saved(v: Option<Value>): Option<Value> {
    if v.Some? && v.value.Number? then Some(Number(Rounded(v.value.number))) else v
  }

  /** After any sequence of changes to an empty configuration, saving it and loading the file into
      a fresh one leaves the result of every read unchanged, but for the digits of a number beyond
      the sixteenth. */
  lemma Persistence(changes: seq<Change>, path: seq<string>, kind: Kind)
    requires forall i :: 0 <= i < |changes| ==> Proper(changes[i])
    requires path != []
    ensures Reload(Run(map[], changes)).ok
    ensures Get(Reload(Run(map[], changes)).value, path, kind) == Saved(Get(Run(map[], changes), path, kind))
  {
    hide Run, Reload, Lookup, Proper, Storable;
    var o := Run(map[], changes);
    NothingIsStorable();
    RunKeepsStorable(map[], changes);
    SaveThenLoad(o);
    LookupNormal(o, path);
  }

  lemma NothingIsStorable()
    ensures Storable(map[])
  {
  }

  /** And exactly the numbers of at most sixteen significant digits are unchanged. */
  lemma SavedExactly(v: Option<Value>)
    ensures Saved(v) == v <==> (v.Some? && v.value.Number? ==> Short(v.value.number))
  {
    if v.Some? && v.value.Number? {
      RoundedExactly(v.value.number);
    }
  }

  lemma Onward(at: seq<string>, section: string, rest: seq<string>)
    ensures at + ([section] + rest) == at + [section] + rest
  {
  }

  lemma PathEnds(at: seq<string>, section: string, path: seq<string>)
    requires at + [section] == path
    ensures |path| == |at| + 1 && path[|at|] == section && path[..|at|] == at
  {
  }

  // The store itself

  class Store {
    var json: Members
    /** The pending key of the object at the path `oddAt`; every other object has none. */
    var odd: string
    var oddAt: seq<string>
    /** The text of the file at the configuration's path; None when there is no such file. */
    var file: Option<string>

    /** No key is pending. */
    ghost predicate Valid()
      reads this
    {
      odd == ""
    }

    constructor (file: Option<string>)
      ensures Valid() && json == map[] && this.file == file
    {
      json, odd, oddAt, this.file := map[], "", [], file;
    }

    /** `GetValue`: the name is scanned section by section. */
    method GetValue(name: string, kind: Kind) returns (result: Option<Value>)
      requires Valid()
      ensures result == Get(json, Split(name, 0), kind)
    {
      var obj := json;
      var searchPos := 0;
      var delPos := Find(name, searchPos);
      while delPos < |name|
        invariant searchPos <= delPos <= |name| && delPos == Find(name, searchPos)
        invariant Get(obj, Split(name, searchPos), kind) == Get(json, Split(name, 0), kind)
        decreases |name| - searchPos
      {
        var section := name[searchPos..delPos];
        assert Split(name, searchPos)[1..] == Split(name, delPos + 1);
        if HasObject(obj, section) {
          obj := obj[section].members;
          searchPos := delPos + 1;
        } else {
          return None;
        }
        delPos := Find(name, searchPos);
      }
      var section := name[searchPos..];
      if section in obj && Is(obj[section], kind) {
        return Some(obj[section]);
      }
      return None;
    }

    /** `*jsonObj << section << value` on the object at `at`. With an empty section the value becomes
        the pending key, which only a string can. */
    method StreamPair(at: seq<string>, section: string, value: Value)
      requires Valid() && LeadsToObject(json, at) && (section != "" || value.String?)
      modifies `json, `odd, `oddAt
      ensures section != "" ==> Valid() && json == ReplaceAt(old(json), at, ObjectAt(old(json), at)[section := value])
      ensures section == "" ==> odd == value.text && oddAt == at && json == old(json)
    {
      PairIsStored(ObjectAt(json, at), section, value);
      ReplaceSame(json, at);
      var s := ShiftPair(ObjectAt(json, at), section, value).value;
      json, odd, oddAt := ReplaceAt(json, at, s.members), s.odd, at;
    }

    /** `*jsonObj << section << jsonxx::Object()` on the object at `at`. */
    method StreamSection(at: seq<string>, section: string)
      requires Valid() && LeadsToObject(json, at)
      modifies `json, `odd, `oddAt
      ensures Valid()
      ensures json == ReplaceAt(old(json), at, ObjectAt(old(json), at)[section := Object(map[])])
    {
      var s := Shift(Streaming(ObjectAt(json, at), odd), String(section)).value;
      s := ShiftObject(s, map[]);
      json, odd, oddAt := ReplaceAt(json, at, s.members), s.odd, at;
    }

    /** The body of the loop of `SetValue`: makes the section when it is missing. What a later
        write below it ends up with does not change. */
    method EnterSection(at: seq<string>, section: string, ghost rest: seq<string>, ghost v: Option<Value>)
      requires Valid() && LeadsToObject(json, at) && rest != []
      modifies `json, `odd, `oddAt
      ensures Valid() && LeadsToObject(json, at + [section])
      ensures Write(json, at + [section] + rest, v) == Write(old(json), at + ([section] + rest), v)
    {
      if !HasObject(ObjectAt(json, at), section) {
        MakeSection(json, at, section, rest, v);
        StreamSection(at, section);
      }
      StepDown(json, at, section);
      assert at + ([section] + rest) == at + [section] + rest;
    }

    /** `SetValue`. When the last section is empty, nothing is stored but the sections on the way, and
        a string is left as the pending key of the object it should have gone into; any other value
        is asked for its text, which the program must not do. */
    method SetValue(name: string, value: Value)
      requires Valid() && (LastSection(name) != "" || value.String?)
      modifies `json, `odd, `oddAt
      ensures LastSection(name) != "" ==> Valid() && json == Put(old(json), Split(name, 0), value)
      ensures LastSection(name) == "" ==>
        && json == Write(old(json), Split(name, 0), None)
        && odd == value.text && oddAt == Split(name, 0)[..|Split(name, 0)| - 1]
    {
      hide Write, LeadsToObject, Split, Find, ObjectAt, ReplaceAt;
      ghost var v := if LastSection(name) != "" then Some(value) else None;
      var at: seq<string> := [];
      assert LeadsToObject(json, at) by { TopIsObject(json); }
      var searchPos := 0;
      var delPos := Find(name, searchPos);
      assert [] + Split(name, 0) == Split(name, 0);
      while delPos < |name|
        invariant Valid() && LeadsToObject(json, at)
        invariant searchPos <= delPos <= |name| && delPos == Find(name, searchPos)
        invariant at + Split(name, searchPos) == Split(name, 0)
        invariant Write(json, at + Split(name, searchPos), v) == Write(old(json), Split(name, 0), v)
        decreases |name| - searchPos
      {
        var section := name[searchPos..delPos];
        SplitStep(name, searchPos);
        ghost var rest := Split(name, delPos + 1);
        EnterSection(at, section, rest, v);
        Onward(at, section, rest);
        at := at + [section];
        searchPos := delPos + 1;
        delPos := Find(name, searchPos);
      }
      SplitStep(name, searchPos);
      var section := name[searchPos..];
      assert at + [section] == Split(name, 0);
      PathEnds(at, section, Split(name, 0));
      PutHere(json, at, section, value);
      StreamPair(at, section, value);
    }

    /** `SetNull`: a missing section ends the call without a change. To an empty last section of
        existing ones a null cannot be streamed. */
    method SetNull(name: string)
      requires Valid() && (LastSection(name) != "" || !Reachable(json, Split(name, 0)))
      modifies `json, `odd, `oddAt
      ensures Valid() && json == PutNull(old(json), Split(name, 0))
    {
      hide Write, LeadsToObject, Split, Find, ObjectAt, ReplaceAt, Reachable;
      var at: seq<string> := [];
      assert LeadsToObject(json, at) by { TopIsObject(json); }
      var searchPos := 0;
      var delPos := Find(name, searchPos);
      assert [] + Split(name, 0) == Split(name, 0);
      while delPos < |name|
        invariant Valid() && json == old(json) && LeadsToObject(json, at)
        invariant searchPos <= delPos <= |name| && delPos == Find(name, searchPos)
        invariant at + Split(name, searchPos) == Split(name, 0)
        decreases |name| - searchPos
      {
        var section := name[searchPos..delPos];
        ghost var rest := Split(name, delPos + 1);
        SplitStep(name, searchPos);
        if HasObject(ObjectAt(json, at), section) {
          StepDown(json, at, section);
          assert at + ([section] + rest) == at + [section] + rest;
          at := at + [section];
          searchPos := delPos + 1;
        } else {
          MissingSection(json, at, section, rest);
          return;
        }
        delPos := Find(name, searchPos);
      }
      SplitStep(name, searchPos);
      var section := name[searchPos..];
      assert Split(name, 0)[|at|] == section;
      PutHere(json, at, section, Null);
      StreamPair(at, section, Null);
    }

    method Save()
      requires Valid()
      modifies `file
      ensures file == Some(Text.Json(Object(json)))
    {
      var text := Printer.Json(Object(json));
      file := Some(text);
    }

    /** A missing file is no error; a file that does not parse leaves what was read of it. */
    method Load() returns (ok: bool)
      requires Valid()
      modifies `json
      ensures file.None? ==> ok && json == old(json)
      ensures file.Some? ==>
        ok == Scan.ParseObject(file.value, 0).ok && json == Scan.ParseObject(file.value, 0).value
    {
      if file.None? {
        return true;
      }
      var input := new Parser.InputStream(file.value);
      ok, json := input.ParseObject();
    }
  }
}

/** The owned pointer trees of jsonxx: Value, Array and Object as objects that are changed in
    place, with the deep copies made by `import`, the copy constructors and assignment. */
module JsonHeap {
  import opened JsonTree
  import opened Decimals

  datatype Tag = NUMBER | STRING | BOOL | NULL | ARRAY | OBJECT | INVALID

  class ValueNode {
    var tag: Tag
    var number: Decimal
    var flag: bool
    var text: string
    var arrayValue: ArrayNode?
    var objectValue: ObjectNode?
    ghost var Repr: set<object>

    ghost predicate Valid()
      reads this, Repr
      decreases Repr, 0
    {
      && this in Repr
      && (tag == ARRAY ==>
           && arrayValue != null && arrayValue in Repr && arrayValue.Repr <= Repr
           && this !in arrayValue.Repr && arrayValue.Valid())
      && (tag == OBJECT ==>
           && objectValue != null && objectValue in Repr && objectValue.Repr <= Repr
           && this !in objectValue.Repr && objectValue.Valid())
    }

    /** The tree this node stands for. */
    ghost function Tree(): Value
      requires Valid()
      reads this, Repr
      decreases Repr, 0
    {
      match tag
      case NUMBER => Number(number)
      case STRING => String(text)
      case BOOL => Boolean(flag)
      case NULL => Null
      case ARRAY => Array(arrayValue.Trees())
      case OBJECT => Object(objectValue.Trees())
      case INVALID => Invalid
    }

    constructor ()
      ensures Valid() && Repr == {this} && Tree() == Invalid
    {
      tag := INVALID;
      number, flag, text, arrayValue, objectValue := Dec(0, 0), false, "", null, null;
      Repr := {this};
    }

    /** `Value(const Value &other)`. */
    constructor Copy(other: ValueNode)
      requires other.Valid()
      ensures Valid() && fresh(Repr) && Tree() == other.Tree()
      decreases other.Tree(), 7
    {
      tag := INVALID;
      number, flag, text, arrayValue, objectValue := Dec(0, 0), false, "", null, null;
      Repr := {this};
      new;
      Import(other);
    }

    /** `Value::reset`: what the Value owns is deleted, but the tag stays, and with it stands for
        nothing until the caller sets a new one. */
    method Reset()
      modifies this
      ensures Repr == {this} && tag == old(tag)
      ensures tag == STRING ==> text == ""
      ensures tag == ARRAY ==> arrayValue == null
      ensures tag == OBJECT ==> objectValue == null
    {
      if tag == STRING {
        text := "";
      } else if tag == OBJECT {
        objectValue := null;
      } else if tag == ARRAY {
        arrayValue := null;
      }
      Repr := {this};
    }

    /** `type_ = ARRAY_` with the new a. */
    method OwnArray(a: ArrayNode)
      requires a.Valid() && this !in a.Repr
      modifies this
      ensures Valid() && Repr == {this} + a.Repr && Tree() == Array(old(a.Trees()))
    {
      tag, arrayValue := ARRAY, a;
      Repr := {this} + a.Repr;
    }

    /** `type_ = OBJECT_` with the new o. */
    method OwnObject(o: ObjectNode)
      requires o.Valid() && this !in o.Repr
      modifies this
      ensures Valid() && Repr == {this} + o.Repr && Tree() == Object(old(o.Trees()))
    {
      tag, objectValue := OBJECT, o;
      Repr := {this} + o.Repr;
    }

    /** `import(const Array &a)`. */
    method ImportArray(a: ArrayNode)
      requires Valid() && a.Valid() && Repr !! a.Repr
      modifies this
      ensures Valid() && fresh(Repr - old(Repr))
      ensures Tree() == Array(old(a.Trees()))
      decreases Array(a.Trees()), 5
    {
      Reset();
      var copy := new ArrayNode();
      copy.Assign(a);
      OwnArray(copy);
    }

    /** `import(const Object &o)`. */
    method ImportObject(o: ObjectNode)
      requires Valid() && o.Valid() && Repr !! o.Repr
      modifies this
      ensures Valid() && fresh(Repr - old(Repr))
      ensures Tree() == Object(old(o.Trees()))
      decreases Object(o.Trees()), 5
    {
      Reset();
      var copy := new ObjectNode();
      copy.Assign(o);
      OwnObject(copy);
    }

    /** `import(const Value &other)`; importing a Value into itself changes nothing. */
    method Import(other: ValueNode)
      requires Valid() && other.Valid()
      requires other == this || Repr !! other.Repr
      modifies this
      ensures Valid() && fresh(Repr - old(Repr))
      ensures Tree() == old(other.Tree())
      decreases other.Tree(), 6
    {
      if this == other {
        return;
      }
      match other.tag
      case NUMBER => Reset(); tag, number := NUMBER, other.number;
      case STRING => Reset(); tag, text := STRING, other.text;
      case BOOL => Reset(); tag, flag := BOOL, other.flag;
      case NULL => Reset(); tag := NULL;
      case INVALID => tag := INVALID;
      case ARRAY => ImportArray(other.arrayValue);
      case OBJECT => ImportObject(other.objectValue);
    }
  }

  /** The pairs of m whose keys are in ks. */
  ghost function Restrict(m: map<string, Value>, ks: set<string>): map<string, Value> {
    map k | k in m && k in ks :: m[k]
  }

  lemma RestrictEnds(base: map<string, Value>, m: map<string, Value>)
    ensures base + Restrict(m, m.Keys - m.Keys) == base && Restrict(m, m.Keys) == m
  {
  }

  lemma RestrictGrows(base: map<string, Value>, m: map<string, Value>, ks: set<string>, key: string)
    requires key in m
    ensures base + Restrict(m, ks + {key}) == (base + Restrict(m, ks))[key := m[key]]
  {
  }

  class ArrayNode {
    var values: seq<ValueNode>
    ghost var Repr: set<object>

    ghost predicate Valid()
      reads this, Repr
      decreases Repr, 0
    {
      && this in Repr
      && (forall i :: 0 <= i < |values| ==>
           values[i] in Repr && values[i].Repr <= Repr && this !in values[i].Repr && values[i].Valid())
      && (forall i, j :: 0 <= i < j < |values| ==> values[i].Repr !! values[j].Repr)
    }

    ghost function Trees(): (r: seq<Value>)
      requires Valid()
      reads this, Repr
      decreases Repr, 0
      ensures |r| == |values|
    {
      seq(|values|, i requires 0 <= i < |values| && Valid() reads this, Repr => values[i].Tree())
    }

    constructor ()
      ensures Valid() && Repr == {this} && values == [] && Trees() == []
    {
      values := [];
      Repr := {this};
    }

    constructor Copy(other: ArrayNode)
      requires other.Valid()
      ensures Valid() && fresh(Repr) && Trees() == other.Trees()
      decreases Array(other.Trees()), 2
    {
      values := [];
      Repr := {this};
      new;
      ImportOther(other);
    }

    method Reset()
      requires Valid()
      modifies this
      ensures Valid() && Repr == {this} && Trees() == []
    {
      values := [];
      Repr := {this};
    }

    /** `values_.push_back(v)`, taking over a node nobody else owns. */
    method PushBack(v: ValueNode)
      requires Valid() && v.Valid() && v.Repr !! Repr
      modifies this
      ensures Valid() && Repr == old(Repr) + v.Repr
      ensures Trees() == old(Trees()) + [old(v.Tree())]
    {
      values := values + [v];
      Repr := Repr + v.Repr;
    }

    method ImportOther(other: ArrayNode)
      requires Valid() && other.Valid() && this !in other.Repr
      modifies this
      ensures Valid() && fresh(Repr - old(Repr))
      ensures Trees() == old(Trees()) + old(other.Trees())
      decreases Array(other.Trees()), 1
    {
      for i := 0 to |other.values|
        invariant Valid() && fresh(Repr - old(Repr))
        invariant other.Valid() && other.Trees() == old(other.Trees()) && other.values == old(other.values)
        invariant Trees() == old(Trees()) + other.Trees()[..i]
      {
        assert other.Trees()[i] == other.values[i].Tree();
        var v := new ValueNode.Copy(other.values[i]);
        PushBack(v);
        assert other.Trees()[..i + 1] == other.Trees()[..i] + [other.values[i].Tree()];
      }
    }

    /** `import(const Array &other)`: appends copies; importing itself goes through a copy. */
    method Import(other: ArrayNode)
      requires Valid() && other.Valid()
      requires other == this || this !in other.Repr
      modifies this
      ensures Valid() && fresh(Repr - old(Repr))
      ensures Trees() == old(Trees()) + old(other.Trees())
      decreases Array(other.Trees()), if this == other then 3 else 2
    {
      if this != other {
        ImportOther(other);
      } else {
        var copy := new ArrayNode.Copy(this);
        ImportOther(copy);
      }
    }

    /** `operator=(const Array &other)`. */
    method Assign(other: ArrayNode)
      requires Valid() && other.Valid()
      requires other == this || Repr !! other.Repr
      modifies this
      ensures Valid() && fresh(Repr - old(Repr))
      ensures Trees() == old(other.Trees())
      decreases Array(other.Trees()), 4
    {
      if this != other {
        Reset();
        Import(other);
      }
    }
  }

  class ObjectNode {
    var valueMap: map<string, ValueNode>
    ghost var Repr: set<object>

    ghost predicate Valid()
      reads this, Repr
      decreases Repr, 0
    {
      && this in Repr
      && (forall k :: k in valueMap ==>
           valueMap[k] in Repr && valueMap[k].Repr <= Repr && this !in valueMap[k].Repr && valueMap[k].Valid())
      && (forall k, l :: k in valueMap && l in valueMap && k != l ==> valueMap[k].Repr !! valueMap[l].Repr)
    }

    ghost function Trees(): (r: map<string, Value>)
      requires Valid()
      reads this, Repr
      decreases Repr, 0
      ensures r.Keys == valueMap.Keys
    {
      map k | k in valueMap :: valueMap[k].Tree()
    }

    constructor ()
      ensures Valid() && Repr == {this} && valueMap == map[] && Trees() == map[]
    {
      valueMap := map[];
      Repr := {this};
    }

    constructor Copy(other: ObjectNode)
      requires other.Valid()
      ensures Valid() && fresh(Repr) && Trees() == other.Trees()
      decreases Object(other.Trees()), 2
    {
      valueMap := map[];
      Repr := {this};
      new;
      ImportOther(other);
    }

    method Reset()
      requires Valid()
      modifies this
      ensures Valid() && Repr == {this} && Trees() == map[]
    {
      valueMap := map[];
      Repr := {this};
    }

    /** `value_map_[key] = v` after the value held before has been deleted. */
    method Put(key: string, v: ValueNode)
      requires Valid() && v.Valid() && v.Repr !! Repr
      modifies this
      ensures Valid() && Repr == old(Repr) + v.Repr
      ensures Trees() == old(Trees())[key := old(v.Tree())]
    {
      valueMap := valueMap[key := v];
      Repr := Repr + v.Repr;
    }

    /** `value_map_[key] = new Value(*it->second)`. */
    method CopyPair(other: ObjectNode, key: string)
      requires Valid() && other.Valid() && this !in other.Repr && key in other.valueMap
      modifies this
      ensures Valid() && fresh(Repr - old(Repr))
      ensures Trees() == old(Trees())[key := old(other.Trees()[key])]
      decreases Object(other.Trees()), 0
    {
      assert other.Trees()[key] == other.valueMap[key].Tree();
      var v := new ValueNode.Copy(other.valueMap[key]);
      Put(key, v);
    }

    method ImportOther(other: ObjectNode)
      requires Valid() && other.Valid() && this !in other.Repr
      modifies this
      ensures Valid() && fresh(Repr - old(Repr))
      ensures Trees() == old(Trees()) + old(other.Trees())
      decreases Object(other.Trees()), 1
    {
      hide *;
      ghost var trees, base := other.Trees(), Trees();
      RestrictEnds(base, trees);
      var todo := other.valueMap.Keys;
      while todo != {}
        invariant Valid() && fresh(Repr - old(Repr))
        invariant other.Valid() && other.Trees() == trees && todo <= other.valueMap.Keys
        invariant Trees() == base + Restrict(trees, trees.Keys - todo)
        decreases todo
      {
        var key :| key in todo;
        CopyPair(other, key);
        RestrictGrows(base, trees, trees.Keys - todo, key);
        assert trees.Keys - todo + {key} == trees.Keys - (todo - {key});
        todo := todo - {key};
      }
      assert trees.Keys - todo == trees.Keys;
    }

    /** `import(const Object &other)`: the other's pairs win; importing itself goes through a copy. */
    method Import(other: ObjectNode)
      requires Valid() && other.Valid()
      requires other == this || Repr !! other.Repr
      modifies this
      ensures Valid() && fresh(Repr - old(Repr))
      ensures Trees() == old(Trees()) + old(other.Trees())
      decreases Object(other.Trees()), if this == other then 3 else 2
    {
      if this != other {
        ImportOther(other);
      } else {
        var copy := new ObjectNode.Copy(this);
        ImportOther(copy);
      }
    }

    /** `import(const std::string &key, const Value &value)`. */
    method ImportPair(key: string, value: ValueNode)
      requires Valid() && value.Valid() && (key in valueMap ==> valueMap[key].Repr !! value.Repr)
      modifies this
      ensures Valid() && fresh(Repr - old(Repr))
      ensures Trees() == old(Trees())[key := old(value.Tree())]
    {
      var v := new ValueNode.Copy(value);
      Put(key, v);
    }

    /** `operator=(const Object &other)`. */
    method Assign(other: ObjectNode)
      requires Valid() && other.Valid()
      requires other == this || Repr !! other.Repr
      modifies this
      ensures Valid() && fresh(Repr - old(Repr))
      ensures Trees() == old(other.Trees())
      decreases Object(other.Trees()), 4
    {
      if this != other {
        Reset();
        Import(other);
      }
    }
  }

  // Ownership

  /** One step down a tree: an array element or the value of a key. */
  datatype Step = Index(index: nat) | Key(key: string)

  function Child(n: ValueNode, step: Step): (c: ValueNode?)
    requires n.Valid()
    reads n, n.Repr
    ensures c != null ==> c in n.Repr && c.Repr <= n.Repr && n !in c.Repr && c.Valid()
  {
    if n.tag == ARRAY && step.Index? && step.index < |n.arrayValue.values| then
      assert n.arrayValue.Valid();
      n.arrayValue.values[step.index]
    else if n.tag == OBJECT && step.Key? && step.key in n.objectValue.valueMap then
      assert n.objectValue.Valid();
      n.objectValue.valueMap[step.key]
    else null
  }

  /** The node reached from n along a path, or null when the path leaves the tree. */
  function NodeAt(n: ValueNode, path: seq<Step>): (c: ValueNode?)
    requires n.Valid()
    reads n, n.Repr
    ensures c != null ==> c in n.Repr && c.Repr <= n.Repr && c.Valid()
    decreases |path|
  {
    if path == [] then n
    else
      var child := Child(n, path[0]);
      if child == null then null else NodeAt(child, path[1..])
  }

  lemma ChildrenAreDisjoint(n: ValueNode, a: Step, b: Step)
    requires n.Valid() && a != b && Child(n, a) != null && Child(n, b) != null
    ensures Child(n, a).Repr !! Child(n, b).Repr
  {
    if n.tag == ARRAY {
      var i, j := a.index, b.index;
      assert if i < j then n.arrayValue.values[i].Repr !! n.arrayValue.values[j].Repr
             else n.arrayValue.values[j].Repr !! n.arrayValue.values[i].Repr;
    }
  }

  /** Exactly one owner: no node of a tree is reached along two different paths. */
  lemma {:induction false} OneOwner(n: ValueNode, p: seq<Step>, q: seq<Step>)
    requires n.Valid() && NodeAt(n, p) != null && NodeAt(n, p) == NodeAt(n, q)
    ensures p == q
    decreases |p|
  {
    if p != [] && q != [] {
      var a, b := Child(n, p[0]), Child(n, q[0]);
      if p[0] == q[0] {
        OneOwner(a, p[1..], q[1..]);
        assert p == [p[0]] + p[1..] && q == [q[0]] + q[1..];
      } else {
        ChildrenAreDisjoint(n, p[0], q[0]);
      }
    }
  }

  // Changes stay in their tree

  /** Whatever is done to the nodes of one tree, at any depth, and to nodes made since, another tree
      that shares no node with it stays the same. */
  twostate lemma OtherTreeIsUnchanged(changed: set<object>, other: ValueNode)
    requires old(other.Valid()) && old(other.Repr) !! changed
    requires forall o: object :: old(allocated(o)) && o !in changed ==> unchanged(o)
    ensures other.Valid() && other.Repr == old(other.Repr) && other.Tree() == old(other.Tree())
  {
  }

  twostate lemma OtherArrayIsUnchanged(changed: set<object>, other: ArrayNode)
    requires old(other.Valid()) && old(other.Repr) !! changed
    requires forall o: object :: old(allocated(o)) && o !in changed ==> unchanged(o)
    ensures other.Valid() && other.Repr == old(other.Repr) && other.Trees() == old(other.Trees())
  {
  }

  twostate lemma OtherObjectIsUnchanged(changed: set<object>, other: ObjectNode)
    requires old(other.Valid()) && old(other.Repr) !! changed
    requires forall o: object :: old(allocated(o)) && o !in changed ==> unchanged(o)
    ensures other.Valid() && other.Repr == old(other.Repr) && other.Trees() == old(other.Trees())
  {
  }

  /** A pair imported into a copy never shows in the object it was copied from. */
  method CopyThenChange(source: ObjectNode, key: string, value: ValueNode) returns (copy: ObjectNode)
    requires source.Valid() && value.Valid()
    ensures copy.Valid() && fresh(copy.Repr)
    ensures copy.Trees() == old(source.Trees())[key := old(value.Tree())]
    ensures source.Valid() && source.Trees() == old(source.Trees())
  {
    hide *;
    copy := new ObjectNode.Copy(source);
    copy.ImportPair(key, value);
  }

  /** A change made anywhere in a copy, to any value, never shows in the source. */
  method ChangeCopy(source: ValueNode, path: seq<Step>, value: ValueNode)
    returns (copy: ValueNode, node: ValueNode?)
    requires source.Valid() && value.Valid()
    ensures fresh(copy) && (node != null <==> old(NodeAt(source, path)) != null)
    ensures node != null ==> fresh(node) && node.Valid() && node.Tree() == old(value.Tree())
    ensures source.Valid() && source.Repr == old(source.Repr) && source.Tree() == old(source.Tree())
  {
    hide *;
    copy := new ValueNode.Copy(source);
    node := NodeAt(copy, path);
    SamePaths(source, copy, path);
    if node != null {
      node.Import(value);
    }
  }

  /** A change made anywhere in the source, to any value, never shows in a copy made before. */
  method ChangeSource(source: ValueNode, node: ValueNode, value: ValueNode) returns (copy: ValueNode)
    requires source.Valid() && value.Valid()
    requires node in source.Repr && node.Valid() && node.Repr !! value.Repr
    modifies node
    ensures node.Valid() && node.Tree() == old(value.Tree())
    ensures copy.Valid() && fresh(copy.Repr) && copy.Tree() == old(source.Tree())
  {
    hide *;
    copy := new ValueNode.Copy(source);
    node.Import(value);
  }

  /** Equal trees have nodes at the same paths. */
  lemma {:induction false} SamePaths(a: ValueNode, b: ValueNode, path: seq<Step>)
    requires a.Valid() && b.Valid() && a.Tree() == b.Tree()
    ensures NodeAt(a, path) == null <==> NodeAt(b, path) == null
    decreases |path|
  {
    if path != [] {
      SameChildren(a, b, path[0]);
      if Child(a, path[0]) != null {
        SamePaths(Child(a, path[0]), Child(b, path[0]), path[1..]);
      }
    }
  }

  lemma SameChildren(a: ValueNode, b: ValueNode, step: Step)
    requires a.Valid() && b.Valid() && a.Tree() == b.Tree()
    ensures Child(a, step) == null <==> Child(b, step) == null
    ensures Child(a, step) != null ==> Child(a, step).Tree() == Child(b, step).Tree()
  {
    if a.tag == ARRAY && step.Index? && step.index < |a.arrayValue.values| {
      assert a.arrayValue.Trees()[step.index] == b.arrayValue.Trees()[step.index];
    } else if a.tag == OBJECT && step.Key? && step.key in a.objectValue.valueMap {
      assert a.objectValue.Trees()[step.key] == b.objectValue.Trees()[step.key];
    }
  }
}

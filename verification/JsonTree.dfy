/** The JSON tree held by jsonxx: a Value owns its string, array or object (src/Core/jsonxx.h). */
module JsonTree {
  import opened Decimals

  /** jsonxx::Value. The tag `Invalid` is INVALID_, the state of a Value that was never assigned. */
  datatype Value =
    | Number(number: Decimal)
    | String(text: string)
    | Boolean(flag: bool)
    | Null
    | Array(elems: seq<Value>)
    | Object(members: map<string, Value>)
    | Invalid

  /** No number of the tree has more than sixteen significant digits. */
  predicate ShortNumbers(v: Value) {
    match v
    case Number(n) => Short(n)
    case Array(elems) => forall i :: 0 <= i < |elems| ==> ShortNumbers(elems[i])
    case Object(members) => forall k :: k in members ==> ShortNumbers(members[k])
    case _ => true
  }

  /** No object of the tree, at any depth, has the empty string as a key. */
  predicate NoEmptyKey(v: Value) {
    match v
    case Array(elems) => forall i :: 0 <= i < |elems| ==> NoEmptyKey(elems[i])
    case Object(members) => "" !in members && forall k :: k in members ==> NoEmptyKey(members[k])
    case _ => true
  }

  /** No unassigned Value occurs in the tree. */
  predicate NoInvalid(v: Value) {
    match v
    case Array(elems) => forall i :: 0 <= i < |elems| ==> NoInvalid(elems[i])
    case Object(members) => forall k :: k in members ==> NoInvalid(members[k])
    case Invalid => false
    case _ => true
  }

  /** The tree with every unassigned Value replaced by null and every number rounded as it is
      printed. */
  function Normal(v: Value): Value {
    match v
    case Number(n) => Number(Rounded(n))
    case Array(elems) => Array(seq(|elems|, i requires 0 <= i < |elems| => Normal(elems[i])))
    case Object(members) => Object(map k | k in members :: Normal(members[k]))
    case Invalid => Null
    case _ => v
  }

  /** These are the only changes. */
  lemma {:induction false} NormalKeepsExactly(v: Value)
    ensures Normal(v) == v <==> NoInvalid(v) && ShortNumbers(v)
  {
    match v
    case Number(n) => RoundedExactly(n);
    case Array(elems) =>
      forall i | 0 <= i < |elems|
        ensures Normal(elems[i]) == elems[i] <==> NoInvalid(elems[i]) && ShortNumbers(elems[i])
      {
        NormalKeepsExactly(elems[i]);
      }
      assert Normal(v) == v <==> Normal(v).elems == elems;
    case Object(members) =>
      forall k | k in members
        ensures Normal(members[k]) == members[k] <==> NoInvalid(members[k]) && ShortNumbers(members[k])
      {
        NormalKeepsExactly(members[k]);
      }
      assert Normal(v) == v <==> Normal(v).members == members;
    case _ =>
  }
}

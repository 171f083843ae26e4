/** The order in which a `std::map<std::string, T>` visits its keys. */
module KeyOrder {

  /** Lexicographic order by character code. */
  predicate Leq(a: string, b: string) {
    if a == "" then true
    else if b == "" then false
    else if a[0] == b[0] then Leq(a[1..], b[1..])
    else a[0] < b[0]
  }

  predicate FirstDifference(a: string, b: string, i: nat) {
    i < |a| && i < |b| && a[..i] == b[..i] && a[i] < b[i]
  }

  /** That is: a is a prefix of b, or has the smaller code where they first differ. */
  lemma {:induction false} LeqExactly(a: string, b: string)
    ensures Leq(a, b) <==> a <= b || exists i: nat :: FirstDifference(a, b, i)
  {
    if a != "" && b != "" {
      if a[0] == b[0] {
        LeqExactly(a[1..], b[1..]);
        assert a == [a[0]] + a[1..] && b == [b[0]] + b[1..];
        if i: nat :| FirstDifference(a[1..], b[1..], i) {
          assert a[..i + 1] == [a[0]] + a[1..][..i] && b[..i + 1] == [b[0]] + b[1..][..i];
          assert FirstDifference(a, b, i + 1);
        }
        if i: nat :| FirstDifference(a, b, i) {
          assert i > 0;
          assert a[1..][..i - 1] == a[..i][1..] && b[1..][..i - 1] == b[..i][1..];
          assert FirstDifference(a[1..], b[1..], i - 1);
        }
      } else if a[0] < b[0] {
        assert a[..0] == b[..0];
        assert FirstDifference(a, b, 0);
      } else {
        forall i: nat | i < |a| && i < |b| ensures !FirstDifference(a, b, i) {
          assert i > 0 ==> a[..i][0] == a[0] && b[..i][0] == b[0];
        }
      }
    }
  }

  lemma {:induction false} LeqTotal(a: string, b: string)
    ensures Leq(a, b) || Leq(b, a)
  {
    if a != "" && b != "" && a[0] == b[0] {
      LeqTotal(a[1..], b[1..]);
    }
  }

  lemma {:induction false} LeqTransitive(a: string, b: string, c: string)
    requires Leq(a, b) && Leq(b, c)
    ensures Leq(a, c)
  {
    if a != "" && a[0] == b[0] == c[0] {
      LeqTransitive(a[1..], b[1..], c[1..]);
    }
  }

  lemma {:induction false} LeqAntisymmetric(a: string, b: string)
    requires Leq(a, b) && Leq(b, a)
    ensures a == b
  {
    if a != "" && b != "" {
      LeqAntisymmetric(a[1..], b[1..]);
      assert a == [a[0]] + a[1..] && b == [b[0]] + b[1..];
    }
  }

  predicate IsLeast(k: string, keys: set<string>) {
    k in keys && forall other :: other in keys ==> Leq(k, other)
  }

  lemma {:induction false} LeastExists(keys: set<string>)
    requires keys != {}
    ensures exists k :: IsLeast(k, keys)
  {
    var some :| some in keys;
    var rest := keys - {some};
    if rest == {} {
      LeqTotal(some, some);
      assert keys == {some};
      assert IsLeast(some, keys);
    } else {
      LeastExists(rest);
      var k :| IsLeast(k, rest);
      LeqTotal(k, some);
      LeqTotal(some, some);
      var least := if Leq(k, some) then k else some;
      forall other | other in keys ensures Leq(least, other) {
        if other != some {
          assert other in rest;
          if least == some {
            LeqTransitive(some, k, other);
          }
        }
      }
      assert IsLeast(least, keys);
    }
  }

  lemma LeastUnique(keys: set<string>)
    ensures forall k, l :: IsLeast(k, keys) && IsLeast(l, keys) ==> k == l
  {
    forall k, l | IsLeast(k, keys) && IsLeast(l, keys) ensures k == l {
      LeqAntisymmetric(k, l);
    }
  }

  /** The keys in visiting order. */
  function Sorted(keys: set<string>): (order: seq<string>)
    ensures forall k :: k in keys <==> k in order
    ensures |order| == |keys|
    ensures forall i, j :: 0 <= i < j < |order| ==> Leq(order[i], order[j]) && order[i] != order[j]
    decreases |keys|
  {
    if keys == {} then []
    else
      LeastExists(keys);
      LeastUnique(keys);
      var k :| IsLeast(k, keys);
      [k] + Sorted(keys - {k})
  }
}

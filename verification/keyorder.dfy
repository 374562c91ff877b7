/** A fixed enumeration of an object's keys.

    Java walks `jsonMask.keySet()`, a `HashMap` key set whose iteration order
    depends on string hash codes and table capacity.  The model replaces that
    order by ascending code-unit order: every key is still visited exactly once,
    and only the choice among several failing keys, or among several bindings
    of one placeholder name, depends on the order. */
module KeyOrder {

  /** Strict lexicographic order on strings by code unit. */
  predicate Precedes(a: string, b: string)
  {
    if a == [] then b != []
    else if b == [] then false
    else a[0] < b[0] || (a[0] == b[0] && Precedes(a[1..], b[1..]))
  }

  lemma {:induction false} PrecedesIrreflexive(a: string)
    ensures !Precedes(a, a)
  {
    if a != [] {
      PrecedesIrreflexive(a[1..]);
    }
  }

  lemma {:induction false} PrecedesTransitive(a: string, b: string, c: string)
    requires Precedes(a, b) && Precedes(b, c)
    ensures Precedes(a, c)
  {
    if a != [] && b != [] && c != [] && a[0] == b[0] && b[0] == c[0] {
      PrecedesTransitive(a[1..], b[1..], c[1..]);
    }
  }

  lemma {:induction false} PrecedesTotal(a: string, b: string)
    ensures a == b || Precedes(a, b) || Precedes(b, a)
  {
    if a != [] && b != [] && a[0] == b[0] {
      PrecedesTotal(a[1..], b[1..]);
      if a[1..] == b[1..] {
        assert a == [a[0]] + a[1..] && b == [b[0]] + b[1..];
      }
    }
  }

  predicate IsLeast(m: string, keys: set<string>)
  {
    m in keys && forall k | k in keys :: !Precedes(k, m)
  }

  /** Every non-empty finite set of strings has a least element. */
  lemma {:induction false} LeastExists(keys: set<string>)
    requires keys != {}
    ensures exists m :: IsLeast(m, keys)
    decreases |keys|
  {
    var k :| k in keys;
    if keys == {k} {
      PrecedesIrreflexive(k);
      assert IsLeast(k, keys);
    } else {
      var rest := keys - {k};
      LeastExists(rest);
      var m :| IsLeast(m, rest);
      PrecedesTotal(k, m);
      if Precedes(k, m) {
        forall j | j in keys
          ensures !Precedes(j, k)
        {
          if j == k {
            PrecedesIrreflexive(k);
          } else if Precedes(j, k) {
            PrecedesTransitive(j, k, m);
          }
        }
        assert IsLeast(k, keys);
      } else {
        assert IsLeast(m, keys);
      }
    }
  }

  /** The least element is unique. */
  lemma LeastUnique(m: string, n: string, keys: set<string>)
    requires IsLeast(m, keys) && IsLeast(n, keys)
    ensures m == n
  {
    PrecedesTotal(m, n);
  }

  function Least(keys: set<string>): (m: string)
    requires keys != {}
    ensures IsLeast(m, keys)
  {
    LeastExists(keys);
    assert forall m, n | IsLeast(m, keys) && IsLeast(n, keys) :: m == n by {
      forall m, n | IsLeast(m, keys) && IsLeast(n, keys)
        ensures m == n
      {
        LeastUnique(m, n, keys);
      }
    }
    var m :| IsLeast(m, keys);
    m
  }

  /** The keys in ascending order, each exactly once. */
  function Enumerate(keys: set<string>): (r: seq<string>)
    ensures |r| == |keys|
    ensures forall k :: k in r <==> k in keys
    ensures forall i, j | 0 <= i < j < |r| :: Precedes(r[i], r[j])
    decreases |keys|
  {
    if keys == {} then []
    else
      var m := Least(keys);
      var rest := Enumerate(keys - {m});
      assert forall k | k in rest :: Precedes(m, k) by {
        forall k | k in rest
          ensures Precedes(m, k)
        {
          PrecedesTotal(m, k);
        }
      }
      [m] + rest
  }

  /** An enumeration lists no key twice. */
  lemma EnumerateDistinct(keys: set<string>)
    ensures forall i, j | 0 <= i < |Enumerate(keys)| && 0 <= j < |Enumerate(keys)| && i != j ::
              Enumerate(keys)[i] != Enumerate(keys)[j]
  {
    var r := Enumerate(keys);
    forall i, j | 0 <= i < |r| && 0 <= j < |r| && i != j
      ensures r[i] != r[j]
    {
      if i < j {
        PrecedesIrreflexive(r[i]);
      } else {
        PrecedesIrreflexive(r[j]);
      }
    }
  }
}

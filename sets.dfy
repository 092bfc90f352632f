/** Facts about finite sets and maps used by the game modules. */
module Sets {

  /** Every subset of a finite set is at most as large as it. */
  lemma {:induction false} SubsetCardinality<T>(a: set<T>, b: set<T>)
    requires a <= b
    ensures |a| <= |b|
    ensures a < b ==> |a| < |b|
    decreases |b|
  {
    if a != {} {
      var x :| x in a;
      SubsetCardinality(a - {x}, b - {x});
      if a < b {
        var y :| y in b && y !in a;
        assert y in b - {x} && y !in a - {x};
      }
    } else if b != {} {
      var y :| y in b;
      assert y !in a;
    }
  }

  /** Each key is mapped to a different value. */
  ghost predicate Injective<K, V>(m: map<K, V>)
  {
    forall k1, k2 :: k1 in m && k2 in m && k1 != k2 ==> m[k1] != m[k2]
  }

  /** A map has no more values than keys, and as many exactly when it is injective. */
  lemma {:induction false} ValuesCardinality<K, V>(m: map<K, V>)
    ensures |m.Values| <= |m|
    ensures |m.Values| == |m| <==> Injective(m)
    decreases |m|
  {
    if m != map[] {
      var k :| k in m;
      var rest := m - {k};
      assert rest.Keys == m.Keys - {k};
      assert |rest| == |m| - 1;
      ValuesCardinality(rest);
      assert m.Values == rest.Values + {m[k]} by {
        forall v | v in m.Values ensures v in rest.Values + {m[k]} {
          var k' :| k' in m && m[k'] == v;
          if k' != k { assert rest[k'] == v; }
        }
        forall v | v in rest.Values ensures v in m.Values {
          var k' :| k' in rest && rest[k'] == v;
          assert m[k'] == v;
        }
      }
      if m[k] in rest.Values {
        var k' :| k' in rest && rest[k'] == m[k];
        assert k' in m && k' != k && m[k'] == m[k];
        assert !Injective(m);
      } else {
        assert Injective(m) <==> Injective(rest) by {
          if Injective(rest) {
            forall k1, k2 | k1 in m && k2 in m && k1 != k2 ensures m[k1] != m[k2] {
              if k1 != k && k2 != k {
                assert rest[k1] != rest[k2];
              } else if k1 == k {
                assert rest[k2] in rest.Values;
              } else {
                assert rest[k1] in rest.Values;
              }
            }
          }
          if Injective(m) {
            forall k1, k2 | k1 in rest && k2 in rest && k1 != k2 ensures rest[k1] != rest[k2] {
              assert m[k1] != m[k2];
            }
          }
        }
      }
    } else {
      assert m.Values == {};
    }
  }

  /** All subsets of `u`. */
  ghost function PowerSet<T>(u: set<T>): (p: set<set<T>>)
    decreases u
  {
    if u == {} then {{}}
    else
      var x :| x in u;
      var rest := PowerSet(u - {x});
      rest + set s | s in rest :: s + {x}
  }

  lemma {:induction false} InPowerSet<T>(s: set<T>, u: set<T>)
    requires s <= u
    ensures s in PowerSet(u)
    decreases u
  {
    if u != {} {
      var x :| x in u && PowerSet(u) == PowerSet(u - {x}) + set s' | s' in PowerSet(u - {x}) :: s' + {x};
      var rest := PowerSet(u - {x});
      InPowerSet(s - {x}, u - {x});
      if x in s {
        assert s == (s - {x}) + {x};
        assert s in set s' | s' in rest :: s' + {x};
      } else {
        assert s == s - {x};
        assert s in rest;
      }
    } else {
      assert s == {};
    }
  }

  /** In a sequence without repeats, no element occurs before its own position. */
  lemma NotInPrefix<T>(q: seq<T>, k: int)
    requires forall i, j :: 0 <= i < j < |q| ==> q[i] != q[j]
    requires 0 <= k < |q|
    ensures q[k] !in q[..k]
  {
  }

  /** A prefix one longer is the prefix and the next element. */
  lemma PrefixStep<T>(q: seq<T>, k: int)
    requires 0 <= k < |q|
    ensures q[..k + 1] == q[..k] + [q[k]]
  {
  }

  /** Putting `a` in front of a sequence with a prefix extends the prefix. */
  lemma PushFront<T>(a: T, front: seq<T>, rest: seq<T>)
    ensures [a] + (front + rest) == ([a] + front) + rest
  {
  }

  /** Some enumeration of a finite set: Python's iteration over a set, in an order it does not promise. */
  method SetToSeq<T>(s: set<T>) returns (q: seq<T>)
    ensures forall x :: x in q <==> x in s
    ensures forall i, j :: 0 <= i < j < |q| ==> q[i] != q[j]
    ensures |q| == |s|
  {
    q := [];
    var rest := s;
    while rest != {}
      invariant rest <= s
      invariant forall x :: x in q <==> x in s && x !in rest
      invariant forall i, j :: 0 <= i < j < |q| ==> q[i] != q[j]
      invariant |q| + |rest| == |s|
      decreases rest
    {
      var x :| x in rest;
      q := q + [x];
      rest := rest - {x};
    }
  }
}

/** Counting and summing over finite maps, independently of the order of iteration. */
module Finite {

  /** The sum of all values. The choice of key does not matter; see SumRemove. */
  ghost function Sum<K>(m: map<K, nat>): nat
    decreases |m|
  {
    if m == map[] then 0 else
      var k :| k in m;
      m[k] + Sum(m - {k})
  }

  lemma {:induction false} SumRemove<K>(m: map<K, nat>, k: K)
    requires k in m
    ensures Sum(m) == m[k] + Sum(m - {k})
    decreases |m|
  {
    var j :| j in m && Sum(m) == m[j] + Sum(m - {j});
    if j != k {
      SumRemove(m - {j}, k);
      SumRemove(m - {k}, j);
      assert m - {j} - {k} == m - {k} - {j};
    }
  }

  /** Changing one value changes the sum by exactly the difference. */
  lemma SumUpdate<K>(m: map<K, nat>, k: K, v: nat)
    ensures Sum(m[k := v]) == Sum(m) - (if k in m then m[k] else 0) + v
  {
    var m' := m[k := v];
    SumRemove(m', k);
    assert m' - {k} == m - {k};
    if k in m {
      SumRemove(m, k);
    } else {
      assert m - {k} == m;
    }
  }

  lemma SumAtLeast<K>(m: map<K, nat>, k: K)
    requires k in m
    ensures m[k] <= Sum(m)
  {
    SumRemove(m, k);
  }

  /** A part of the map sums to at most the whole. */
  lemma {:induction false} SumSubset<K>(m: map<K, nat>, keys: set<K>)
    ensures Sum(m - keys) <= Sum(m)
    decreases |keys|
  {
    if keys == {} {
      assert m - keys == m;
    } else {
      var k :| k in keys;
      SumSubset(m, keys - {k});
      var rest := m - (keys - {k});
      assert rest - {k} == m - keys;
      if k in rest {
        SumRemove(rest, k);
      } else {
        assert rest - {k} == rest;
      }
    }
  }

  /** An injective map has as many values as keys. */
  lemma {:induction false} InjectiveSize<K, V>(m: map<K, V>)
    requires forall i, j :: i in m && j in m && m[i] == m[j] ==> i == j
    ensures |m.Values| == |m|
    decreases |m|
  {
    if m == map[] {
      assert m.Values == {};
    } else {
      var k :| k in m;
      var rest := m - {k};
      InjectiveSize(rest);
      assert m.Values == rest.Values + {m[k]} by {
        forall v | v in m.Values
          ensures v in rest.Values + {m[k]}
        {
          var i :| i in m && m[i] == v;
          assert i == k || i in rest;
        }
      }
      assert m[k] !in rest.Values;
      assert m.Keys == rest.Keys + {k};
    }
  }

  lemma {:induction false} SubsetSize<T>(a: set<T>, b: set<T>)
    requires a <= b
    ensures |a| <= |b|
    ensures |a| == |b| ==> a == b
    decreases |a|
  {
    if a == {} {
    } else {
      var x :| x in a;
      SubsetSize(a - {x}, b - {x});
      assert a == a - {x} + {x} && b == b - {x} + {x};
    }
  }

  lemma SameMap<K, V>(a: map<K, V>, b: map<K, V>)
    requires forall k :: k in a <==> k in b
    requires forall k :: k in a ==> a[k] == b[k]
    ensures a == b
  {
  }

  lemma UpdateTwice<K, V>(m: map<K, V>, k: K, v: V, w: V)
    ensures m[k := v][k := w] == m[k := w]
  {
  }

  lemma UpdateSame<K, V>(m: map<K, V>, k: K)
    requires k in m
    ensures m[k := m[k]] == m
  {
  }

  /** `a` where work is still to do, `b` where it is done. */
  function Merge<K, V>(a: map<K, V>, b: map<K, V>, todo: set<K>): map<K, V>
    requires a.Keys == b.Keys
  {
    map k | k in a :: if k in todo then a[k] else b[k]
  }

  lemma MergeEnds<K, V>(a: map<K, V>, b: map<K, V>)
    requires a.Keys == b.Keys
    ensures Merge(a, b, a.Keys) == a && Merge(a, b, {}) == b
  {
  }

  lemma MergeOneMore<K, V>(a: map<K, V>, b: map<K, V>, todo: set<K>, k: K)
    requires a.Keys == b.Keys && k in todo && k in a
    ensures k in Merge(a, b, todo) && Merge(a, b, todo)[k] == a[k]
    ensures Merge(a, b, todo)[k := b[k]] == Merge(a, b, todo - {k})
  {
  }

  lemma DisjointUnionSize<T>(a: set<T>, b: set<T>, c: set<T>)
    requires forall x :: x in c <==> x in a || x in b
    requires forall x :: x in a ==> x !in b
    ensures |c| == |a| + |b|
  {
    assert c == a + b;
  }

  predicate IsLeast(s: set<nat>, k: nat) {
    k in s && forall j :: j in s ==> k <= j
  }

  predicate IsGreatest(s: set<nat>, k: nat) {
    k in s && forall j :: j in s ==> j <= k
  }

  /** The least key of a non-empty map of naturals, the one BTreeMap iteration meets first. */
  function MinKey<V>(m: map<nat, V>): (k: nat)
    requires m != map[]
    ensures k in m && forall j :: j in m ==> k <= j
  {
    HasLeast(m.Keys);
    var k :| IsLeast(m.Keys, k);
    k
  }

  /** The greatest key of a non-empty map of naturals. */
  function MaxKey<V>(m: map<nat, V>): (k: nat)
    requires m != map[]
    ensures k in m && forall j :: j in m ==> j <= k
  {
    HasGreatest(m.Keys);
    var k :| IsGreatest(m.Keys, k);
    k
  }

  lemma {:induction false} HasLeast(s: set<nat>)
    requires s != {}
    ensures exists k :: IsLeast(s, k)
    decreases |s|
  {
    var x :| x in s;
    if s == {x} {
      assert IsLeast(s, x);
    } else {
      HasLeast(s - {x});
      var k :| IsLeast(s - {x}, k);
      assert forall j :: j in s ==> j == x || j in s - {x};
      assert IsLeast(s, if x < k then x else k);
    }
  }

  lemma {:induction false} HasGreatest(s: set<nat>)
    requires s != {}
    ensures exists k :: IsGreatest(s, k)
    decreases |s|
  {
    var x :| x in s;
    if s == {x} {
      assert IsGreatest(s, x);
    } else {
      HasGreatest(s - {x});
      var k :| IsGreatest(s - {x}, k);
      assert forall j :: j in s ==> j == x || j in s - {x};
      assert IsGreatest(s, if x < k then k else x);
    }
  }
}

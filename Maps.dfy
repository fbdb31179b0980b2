/** How many distinct values a map holds: fewer than its keys exactly when two keys share a value. */
module Maps {
  lemma SubsetCard<T>(a: set<T>, b: set<T>)
    requires a <= b
    ensures |a| <= |b|
  {
    assert b == a + (b - a);
  }

  lemma {:induction false} ValuesAtMostKeys<K, V>(m: map<K, V>)
    ensures |m.Values| <= |m.Keys|
    decreases |m.Keys|
  {
    if |m.Keys| > 0 {
      var k :| k in m.Keys;
      var rest := m - {k};
      ValuesAtMostKeys(rest);
      assert m.Keys == rest.Keys + {k};
      assert m.Values <= rest.Values + {m[k]};
      SubsetCard(m.Values, rest.Values + {m[k]});
    }
  }

  lemma {:induction false} DistinctValues<K, V>(m: map<K, V>)
    requires forall a, b :: a in m && b in m && a != b ==> m[a] != m[b]
    ensures |m.Values| == |m.Keys|
    decreases |m.Keys|
  {
    if |m.Keys| > 0 {
      var k :| k in m.Keys;
      var rest := m - {k};
      DistinctValues(rest);
      assert m.Keys == rest.Keys + {k};
      assert m.Values == rest.Values + {m[k]};
      assert m[k] !in rest.Values;
    }
  }

  lemma SharedValue<K, V>(m: map<K, V>, a: K, b: K)
    requires a in m && b in m && a != b && m[a] == m[b]
    ensures |m.Values| < |m.Keys|
  {
    var rest := m - {a};
    ValuesAtMostKeys(rest);
    assert m.Keys == rest.Keys + {a};
    assert m.Values == rest.Values;
  }

  /** len(set(d.values())) < len(d) exactly when two keys of d map to the same value. */
  lemma DuplicateValues<K, V>(m: map<K, V>)
    ensures |m.Values| < |m.Keys| <==> exists a, b :: a in m && b in m && a != b && m[a] == m[b]
  {
    if exists a, b :: a in m && b in m && a != b && m[a] == m[b] {
      var a, b :| a in m && b in m && a != b && m[a] == m[b];
      SharedValue(m, a, b);
    } else {
      DistinctValues(m);
    }
  }
}

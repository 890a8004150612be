/** How many keys of a map carry a given value, and how that number moves
    when the map is updated, shrunk or split in two. */
module Counting {

  ghost function Sites<K, V>(m: map<K, V>, v: V): set<K> {
    set k | k in m && m[k] == v
  }

  ghost function Count<K, V>(m: map<K, V>, v: V): nat {
    |Sites(m, v)|
  }

  lemma CountInsert<K, V>(m: map<K, V>, k: K, v: V, w: V)
    requires k !in m
    ensures Count(m[k := v], w) == Count(m, w) + if v == w then 1 else 0
  {
    if v == w {
      assert Sites(m[k := v], w) == Sites(m, w) + {k};
    } else {
      assert Sites(m[k := v], w) == Sites(m, w);
    }
  }

  lemma CountRemove<K, V>(m: map<K, V>, k: K, w: V)
    requires k in m
    ensures Count(m - {k}, w) == Count(m, w) - if m[k] == w then 1 else 0
  {
    if m[k] == w {
      assert Sites(m, w) == Sites(m - {k}, w) + {k};
    } else {
      assert Sites(m, w) == Sites(m - {k}, w);
    }
  }

  lemma CountZero<K, V>(m: map<K, V>, v: V)
    ensures Count(m, v) == 0 <==> forall k :: k in m ==> m[k] != v
  {
    assert forall k :: k in m && m[k] == v <==> k in Sites(m, v);
    if Count(m, v) != 0 {
      var k :| k in Sites(m, v);
    }
  }

  /** A map and two disjoint parts covering it: the counts add up. */
  lemma CountSplit<K, V>(m: map<K, V>, a: map<K, V>, b: map<K, V>, v: V)
    requires a.Keys !! b.Keys
    requires m == a + b
    ensures Count(m, v) == Count(a, v) + Count(b, v)
  {
    assert Sites(m, v) == Sites(a, v) + Sites(b, v);
  }

  predicate Distinct<T(==)>(s: seq<T>) {
    forall i, j :: 0 <= i < j < |s| ==> s[i] != s[j]
  }
}

/** Small facts about sets and maps that several services share. */
module Collections {

  datatype Option<T> = None | Some(value: T)

  /** Some element of a non-empty set. */
  ghost function Pick<T>(s: set<T>): (x: T)
    requires s != {}
    ensures x in s
  {
    var x :| x in s;
    x
  }

  /** The next element of an iteration whose order is not relied on. */
  method Choose<T(==)>(s: set<T>) returns (x: T)
    requires s != {}
    ensures x in s
  {
    x :| x in s;
  }

  /** `dict.pop(key, None)`. */
  function Without<K(==), V>(m: map<K, V>, k: K): (r: map<K, V>)
    ensures r.Keys == m.Keys - {k}
    ensures forall x :: x in r ==> r[x] == m[x]
  {
    m - {k}
  }

  /** The largest key, or 0; its contract determines it. */
  ghost function MaxKey(keys: set<int>): (m: int)
    ensures m >= 0
    ensures m == 0 || m in keys
    ensures forall k :: k in keys ==> k <= m
  {
    if keys == {} then 0
    else
      var k := Pick(keys);
      var m := MaxKey(keys - {k});
      assert forall x :: x in keys ==> x == k || x in keys - {k};
      if m < k then k else m
  }

  /** One more than the largest key: `max(..., default=0) + 1`. */
  ghost function NextKey(keys: set<int>): (k: int)
    ensures k >= 1 && k !in keys
    ensures forall x :: x in keys ==> x < k
    ensures k == 1 || k - 1 in keys
  {
    MaxKey(keys) + 1
  }

  lemma {:induction false} SubsetSize<T>(a: set<T>, b: set<T>)
    requires a <= b
    ensures |a| <= |b|
  {
    assert b == a + (b - a);
  }
}

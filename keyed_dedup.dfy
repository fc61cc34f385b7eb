/** The deduplication idiom both fetch steps use:
      `Array.from(new Map(xs.map(a => [key(a), a])).values())`.
    A JavaScript `Map` remembers the order in which keys were first inserted,
    and `set` on a key it already holds replaces the value in place. So each
    key keeps the position of its FIRST occurrence in `xs` but carries the
    value of its LAST occurrence. The Map is represented here by the sequence
    of its values, in key-insertion order. */
module KeyedDedup {

  /** The first index of `xs` whose key is `k`, or -1. */
  function FirstIndexOf<K(==), V>(xs: seq<V>, key: V -> K, k: K): (r: int)
    ensures -1 <= r < |xs|
    ensures r == -1 <==> forall i :: 0 <= i < |xs| ==> key(xs[i]) != k
    ensures r >= 0 ==> key(xs[r]) == k && forall i :: 0 <= i < r ==> key(xs[i]) != k
  {
    if xs == [] then -1
    else
      var p := FirstIndexOf(xs[..|xs| - 1], key, k);
      if p >= 0 then p else if key(xs[|xs| - 1]) == k then |xs| - 1 else -1
  }

  /** The last index of `xs` whose key is `k`, or -1. */
  function LastIndexOf<K(==), V>(xs: seq<V>, key: V -> K, k: K): (r: int)
    ensures -1 <= r < |xs|
    ensures r == -1 <==> forall i :: 0 <= i < |xs| ==> key(xs[i]) != k
    ensures r >= 0 ==> key(xs[r]) == k && forall i :: r < i < |xs| ==> key(xs[i]) != k
  {
    if xs == [] then -1
    else if key(xs[|xs| - 1]) == k then |xs| - 1
    else LastIndexOf(xs[..|xs| - 1], key, k)
  }

  /** `map.set(key(x), x)` on a Map whose values, in insertion order, are
      `entries`: an existing key keeps its place and takes the new value, a new
      key goes to the end. */
  function Set<K(==), V>(entries: seq<V>, key: V -> K, x: V): seq<V> {
    var p := FirstIndexOf(entries, key, key(x));
    if p < 0 then entries + [x] else entries[p := x]
  }

  /** `Array.from(new Map(xs.map(a => [key(a), a])).values())`: the Map
      constructor calls `set` once per element, left to right. */
  function Values<K(==), V>(xs: seq<V>, key: V -> K): seq<V> {
    if xs == [] then [] else Set(Values(xs[..|xs| - 1], key), key, xs[|xs| - 1])
  }

  predicate DistinctKeys<K(==), V>(s: seq<V>, key: V -> K) {
    forall i, j :: 0 <= i < j < |s| ==> key(s[i]) != key(s[j])
  }

  function Keys<K(==), V>(s: seq<V>, key: V -> K): set<K> {
    set i | 0 <= i < |s| :: key(s[i])
  }

  lemma KeysSnoc<K, V>(s: seq<V>, key: V -> K, x: V)
    ensures Keys(s + [x], key) == Keys(s, key) + {key(x)}
  {
    var t := s + [x];
    assert key(t[|s|]) == key(x);
    forall k | k in Keys(s, key) ensures k in Keys(t, key) {
      var i :| 0 <= i < |s| && key(s[i]) == k;
      assert key(t[i]) == k;
    }
  }

  /** A later element with the same key replaces the earlier one in place. */
  lemma ValuesPair<K, V>(x: V, y: V, key: V -> K)
    requires key(x) == key(y)
    ensures Values([x, y], key) == [y]
  {
    assert [x, y][..1] == [x] && [x][..0] == [];
    assert Values([x], key) == [x];
    assert FirstIndexOf([x], key, key(y)) == 0;
  }

  lemma {:induction false} ValuesShorter<K, V>(xs: seq<V>, key: V -> K)
    ensures |Values(xs, key)| <= |xs|
  {
    if xs != [] {
      ValuesShorter(xs[..|xs| - 1], key);
    }
  }

  /** No key occurs twice in the Map's values. */
  lemma {:induction false} ValuesDistinct<K, V>(xs: seq<V>, key: V -> K)
    ensures DistinctKeys(Values(xs, key), key)
  {
    if xs != [] {
      ValuesDistinct(xs[..|xs| - 1], key);
    }
  }

  /** The Map holds exactly the keys of the input. */
  lemma {:induction false} ValuesKeys<K, V>(xs: seq<V>, key: V -> K)
    ensures Keys(Values(xs, key), key) == Keys(xs, key)
  {
    if xs != [] {
      var init, x := xs[..|xs| - 1], xs[|xs| - 1];
      var e := Values(init, key);
      ValuesKeys(init, key);
      assert xs == init + [x];
      KeysSnoc(init, key, x);
      var p := FirstIndexOf(e, key, key(x));
      if p < 0 {
        KeysSnoc(e, key, x);
      } else {
        var r := e[p := x];
        forall i | 0 <= i < |e| ensures key(r[i]) == key(e[i]) { }
        assert Keys(r, key) == Keys(e, key);
        assert key(x) in Keys(e, key) by { assert key(e[p]) == key(x); }
      }
    }
  }

  /** Each value the Map keeps is the LAST input element with that key. */
  lemma {:induction false} ValuesKeepLast<K, V>(xs: seq<V>, key: V -> K)
    ensures forall n :: 0 <= n < |Values(xs, key)| ==>
      0 <= LastIndexOf(xs, key, key(Values(xs, key)[n]))
      && Values(xs, key)[n] == xs[LastIndexOf(xs, key, key(Values(xs, key)[n]))]
  {
    if xs != [] {
      var init, x := xs[..|xs| - 1], xs[|xs| - 1];
      var e := Values(init, key);
      ValuesKeepLast(init, key);
      ValuesDistinct(init, key);
      var r := Values(xs, key);
      var p := FirstIndexOf(e, key, key(x));
      forall n | 0 <= n < |r|
        ensures 0 <= LastIndexOf(xs, key, key(r[n])) && r[n] == xs[LastIndexOf(xs, key, key(r[n]))]
      {
        if (p < 0 && n == |e|) || n == p {
          assert r[n] == x;
          assert LastIndexOf(xs, key, key(x)) == |xs| - 1;
        } else {
          assert n < |e|;
          assert r[n] == e[n];
          assert key(e[n]) != key(x);
          var j := LastIndexOf(init, key, key(e[n]));
          assert LastIndexOf(xs, key, key(r[n])) == j;
          assert 0 <= j && e[n] == init[j] == xs[j];
        }
      }
    }
  }

  /** The Map lists its keys in the order of their FIRST occurrence in the
      input. */
  lemma {:induction false} ValuesFirstOrder<K, V>(xs: seq<V>, key: V -> K)
    ensures var r := Values(xs, key);
      forall a, b :: 0 <= a < b < |r| ==>
        0 <= FirstIndexOf(xs, key, key(r[a])) < FirstIndexOf(xs, key, key(r[b]))
  {
    if xs != [] {
      var init, x := xs[..|xs| - 1], xs[|xs| - 1];
      var e := Values(init, key);
      ValuesFirstOrder(init, key);
      ValuesKeys(init, key);
      var r := Values(xs, key);
      var p := FirstIndexOf(e, key, key(x));
      // every key already in the Map occurs in `init`, so its first index is unchanged
      forall n | 0 <= n < |e|
        ensures 0 <= FirstIndexOf(init, key, key(e[n])) == FirstIndexOf(xs, key, key(e[n]))
      {
        assert key(e[n]) in Keys(init, key);
      }
      forall n | 0 <= n < |r| ensures key(r[n]) == if n < |e| then key(e[n]) else key(x) {
        if n == p { assert key(e[p]) == key(x); }
      }
      if p < 0 {
        assert key(x) !in Keys(e, key);
        assert FirstIndexOf(init, key, key(x)) == -1;
        assert FirstIndexOf(xs, key, key(x)) == |init|;
      }
    }
  }

  /** Values whose keys are already distinct pass through unchanged. */
  lemma {:induction false} ValuesOfDistinct<K, V>(xs: seq<V>, key: V -> K)
    requires DistinctKeys(xs, key)
    ensures Values(xs, key) == xs
  {
    if xs != [] {
      var init, x := xs[..|xs| - 1], xs[|xs| - 1];
      ValuesOfDistinct(init, key);
      assert FirstIndexOf(init, key, key(x)) == -1;
      assert init + [x] == xs;
    }
  }

  /** Deduplicating twice gives the same result as deduplicating once. */
  lemma ValuesIdempotent<K, V>(xs: seq<V>, key: V -> K)
    ensures Values(Values(xs, key), key) == Values(xs, key)
  {
    ValuesDistinct(xs, key);
    ValuesOfDistinct(Values(xs, key), key);
  }
}

/** Sets indexed by a key function that tells their members apart. */
module Indexing {

  ghost predicate UniqueBy<V, K>(key: V -> K, X: set<V>) {
    forall x, y | x in X && y in X && key(x) == key(y) :: x == y
  }

  ghost function KeysOf<V, K>(key: V -> K, X: set<V>): set<K> {
    set x | x in X :: key(x)
  }

  /** The member with this key. */
  ghost function Member<V, K>(key: V -> K, X: set<V>, k: K): (x: V)
    requires k in KeysOf(key, X)
    ensures x in X && key(x) == k
  {
    var x :| x in X && key(x) == k;
    x
  }

  /** Every member of `X` under its own key, and nothing else. */
  ghost function IndexBy<V, K>(key: V -> K, X: set<V>): map<K, V>
    requires UniqueBy(key, X)
  {
    map k | k in KeysOf(key, X) :: Member(key, X, k)
  }

  lemma IndexAt<V, K>(key: V -> K, X: set<V>, x: V)
    requires UniqueBy(key, X) && x in X
    ensures key(x) in IndexBy(key, X) && IndexBy(key, X)[key(x)] == x
  {
    assert key(x) in KeysOf(key, X);
  }

  lemma IndexHas<V, K>(key: V -> K, X: set<V>, k: K)
    requires UniqueBy(key, X) && k in IndexBy(key, X)
    ensures IndexBy(key, X)[k] in X && key(IndexBy(key, X)[k]) == k
  {
  }

  lemma KeysUnion<V, K>(key: V -> K, X: set<V>, Y: set<V>)
    ensures KeysOf(key, X + Y) == KeysOf(key, X) + KeysOf(key, Y)
  {
    forall x | x in X ensures key(x) in KeysOf(key, X + Y) { assert x in X + Y; }
    forall y | y in Y ensures key(y) in KeysOf(key, X + Y) { assert y in X + Y; }
  }

  lemma IndexUnion<V, K>(key: V -> K, X: set<V>, Y: set<V>)
    requires UniqueBy(key, X + Y)
    ensures UniqueBy(key, X) && UniqueBy(key, Y)
    ensures IndexBy(key, X + Y) == IndexBy(key, X) + IndexBy(key, Y)
  {
    assert forall x | x in X :: x in X + Y;
    assert forall y | y in Y :: y in X + Y;
    KeysUnion(key, X, Y);
    forall k | k in KeysOf(key, X + Y) ensures IndexBy(key, X + Y)[k] == (IndexBy(key, X) + IndexBy(key, Y))[k] {
      var x := if k in KeysOf(key, Y) then Member(key, Y, k) else Member(key, X, k);
      assert x in X + Y;
      IndexAt(key, X + Y, x);
    }
  }

  /** Writing `Y` over a map that already holds `X` is writing both at once. */
  lemma IndexMore<V, K>(key: V -> K, m0: map<K, V>, all: set<V>, X: set<V>, Y: set<V>)
    requires UniqueBy(key, all) && X <= all && Y <= all
    ensures UniqueBy(key, X) && UniqueBy(key, Y) && UniqueBy(key, X + Y)
    ensures m0 + IndexBy(key, X) + IndexBy(key, Y) == m0 + IndexBy(key, X + Y)
  {
    assert X + Y <= all;
    IndexUnion(key, X, Y);
  }

  lemma IndexOnly<V, K>(m: map<K, V>, m': map<K, V>)
    requires m == map[] + m'
    ensures m == m'
  {
  }
}

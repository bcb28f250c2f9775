/**
 * Keeping the first element of each key, in order: the reference for every first-wins deduplication.
 */
module FirstOfKey {

  ghost function KeysOf<A, K>(key: A -> K, arrivals: seq<A>): set<K> {
    if arrivals == [] then {} else KeysOf(key, arrivals[..|arrivals| - 1]) + {key(arrivals[|arrivals| - 1])}
  }

  /** The arrivals whose key did not arrive before them, in arrival order. */
  ghost function KeepFirst<A, K>(key: A -> K, arrivals: seq<A>): seq<A> {
    if arrivals == [] then []
    else
      var before := arrivals[..|arrivals| - 1];
      var last := arrivals[|arrivals| - 1];
      if key(last) in KeysOf(key, before) then KeepFirst(key, before) else KeepFirst(key, before) + [last]
  }

  ghost function WithKeys<A, K>(key: A -> K, arrivals: seq<A>, keys: set<K>): seq<A> {
    if arrivals == [] then []
    else
      var before := WithKeys(key, arrivals[..|arrivals| - 1], keys);
      var last := arrivals[|arrivals| - 1];
      if key(last) in keys then before + [last] else before
  }

  lemma {:induction false} KeysSnoc<A, K>(key: A -> K, s: seq<A>, a: A)
    ensures KeysOf(key, s + [a]) == KeysOf(key, s) + {key(a)}
    ensures KeepFirst(key, s + [a]) == if key(a) in KeysOf(key, s) then KeepFirst(key, s) else KeepFirst(key, s) + [a]
  {
    assert (s + [a])[..|s|] == s;
  }

  lemma {:induction false} KeysOfAll<A, K>(key: A -> K, s: seq<A>)
    ensures forall i :: 0 <= i < |s| ==> key(s[i]) in KeysOf(key, s)
    ensures forall k :: k in KeysOf(key, s) ==> exists i :: 0 <= i < |s| && key(s[i]) == k
  {
    if s != [] {
      KeysOfAll(key, s[..|s| - 1]);
    }
  }

  /** Every key is kept, once. */
  lemma {:induction false} KeptKeys<A, K>(key: A -> K, arrivals: seq<A>)
    ensures KeysOf(key, KeepFirst(key, arrivals)) == KeysOf(key, arrivals)
    ensures |KeepFirst(key, arrivals)| == |KeysOf(key, arrivals)|
  {
    if arrivals != [] {
      var before := arrivals[..|arrivals| - 1];
      var last := arrivals[|arrivals| - 1];
      KeptKeys(key, before);
      KeysSnoc(key, KeepFirst(key, before), last);
    }
  }

  /** What is kept arrived. */
  lemma {:induction false} KeptFromAll<A, K>(key: A -> K, s: seq<A>)
    ensures forall j :: 0 <= j < |KeepFirst(key, s)| ==> KeepFirst(key, s)[j] in s
  {
    if s != [] {
      KeptFromAll(key, s[..|s| - 1]);
      assert s == s[..|s| - 1] + [s[|s| - 1]];
    }
  }

  /** Every arrival has one of its key kept. */
  lemma KeptFor<A, K>(key: A -> K, s: seq<A>, i: nat) returns (j: nat)
    requires i < |s|
    ensures j < |KeepFirst(key, s)| && key(KeepFirst(key, s)[j]) == key(s[i])
  {
    KeysOfAll(key, s);
    KeptKeys(key, s);
    KeysOfAll(key, KeepFirst(key, s));
    assert key(s[i]) in KeysOf(key, KeepFirst(key, s));
    j :| 0 <= j < |KeepFirst(key, s)| && key(KeepFirst(key, s)[j]) == key(s[i]);
  }

  ghost predicate KeysDiffer<A, K>(key: A -> K, s: seq<A>) {
    forall i, j :: 0 <= i < j < |s| ==> key(s[i]) != key(s[j])
  }

  lemma KeysDifferSnoc<A, K>(key: A -> K, s: seq<A>, a: A)
    requires KeysDiffer(key, s) && key(a) !in KeysOf(key, s)
    ensures KeysDiffer(key, s + [a])
  {
    KeysOfAll(key, s);
  }

  /** No key is kept twice. */
  lemma {:induction false} KeptDistinct<A, K>(key: A -> K, s: seq<A>)
    ensures KeysDiffer(key, KeepFirst(key, s))
  {
    if s != [] {
      var init, last := s[..|s| - 1], s[|s| - 1];
      KeptDistinct(key, init);
      KeptKeys(key, init);
      if key(last) !in KeysOf(key, init) {
        KeysDifferSnoc(key, KeepFirst(key, init), last);
      }
    }
  }

  lemma {:induction false} WithKeysHas<A, K>(key: A -> K, arrivals: seq<A>, keys: set<K>)
    ensures KeysOf(key, WithKeys(key, arrivals, keys)) == KeysOf(key, arrivals) * keys
  {
    if arrivals != [] {
      WithKeysHas(key, arrivals[..|arrivals| - 1], keys);
      KeysSnoc(key, WithKeys(key, arrivals[..|arrivals| - 1], keys), arrivals[|arrivals| - 1]);
    }
  }

  /** Forgetting keys commutes with keeping first arrivals. */
  lemma {:induction false} KeepFirstWithKeys<A, K>(key: A -> K, arrivals: seq<A>, keys: set<K>)
    ensures KeepFirst(key, WithKeys(key, arrivals, keys)) == WithKeys(key, KeepFirst(key, arrivals), keys)
  {
    if arrivals != [] {
      var before := arrivals[..|arrivals| - 1];
      var last := arrivals[|arrivals| - 1];
      KeepFirstWithKeys(key, before, keys);
      WithKeysHas(key, before, keys);
      KeysSnoc(key, WithKeys(key, before, keys), last);
      WithKeysSnoc(key, KeepFirst(key, before), last, keys);
    }
  }

  lemma WithKeysSnoc<A, K>(key: A -> K, s: seq<A>, a: A, keys: set<K>)
    ensures WithKeys(key, s + [a], keys) == WithKeys(key, s, keys) + (if key(a) in keys then [a] else [])
  {
    assert (s + [a])[..|s|] == s;
  }
}

/** Facts about sequences and maps that the other modules use without
    their element types getting in the way. */
module Collections {
  /** Membership in a non-empty sequence: in its front part, or its last element. */
  lemma InLast<T>(s: seq<T>, x: T)
    requires s != []
    ensures x in s <==> x in s[..|s| - 1] || x == s[|s| - 1]
  {
    assert s == s[..|s| - 1] + [s[|s| - 1]];
  }

  /** Two maps defined on every key that agree on every key are equal. */
  lemma TotalMapsEqual<K, V>(a: map<K, V>, b: map<K, V>)
    requires forall k :: k in a && k in b && a[k] == b[k]
    ensures a == b
  {
    assert a.Keys == b.Keys;
  }
}

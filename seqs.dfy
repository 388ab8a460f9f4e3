/** Sequence helpers shared by the cache's recency order and the hash
    ring's sorted point list. */
module Sequences {
  /** A count as Python uses it for a length: negative counts as none. The
      cache keeps at most `Bound(capacity)` entries, since a negative
      capacity evicts on every insertion, and a ring gives each node
      `Bound(replicas)` points. */
  function Bound(n: int): nat {
    if n < 0 then 0 else n
  }

  /** No element occurs twice. */
  predicate Distinct<K(==)>(s: seq<K>) {
    forall i, j :: 0 <= i < j < |s| ==> s[i] != s[j]
  }

  /** `s` with every occurrence of `x` taken out, the rest in order. */
  function Without<K(==, !new)>(s: seq<K>, x: K): (r: seq<K>)
    ensures forall y :: y in r <==> y in s && y != x
    ensures |r| <= |s|
  {
    if s == [] then []
    else if s[0] == x then Without(s[1..], x)
    else [s[0]] + Without(s[1..], x)
  }

  lemma {:induction false} WithoutDistinct<K(!new)>(s: seq<K>, x: K)
    requires Distinct(s)
    ensures Distinct(Without(s, x))
    ensures x in s ==> |Without(s, x)| == |s| - 1
    ensures x !in s ==> Without(s, x) == s
  {
    if s != [] {
      assert Distinct(s[1..]);
      WithoutDistinct(s[1..], x);
      if s[0] != x {
        assert s[0] !in s[1..];
      }
    }
  }
}

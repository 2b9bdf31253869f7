/**
 * Swift's `Array.map`, as a function on sequences, with the facts about it
 * that the view model needs.
 */
module Seqs {

  /** `s.map(f)`: one result per element, in the same order. */
  function Map<A, B>(f: A -> B, s: seq<A>): (r: seq<B>)
    ensures |r| == |s|
  {
    if s == [] then [] else [f(s[0])] + Map(f, s[1..])
  }

  lemma {:induction false} MapAt<A, B>(f: A -> B, s: seq<A>, i: int)
    requires 0 <= i < |s|
    ensures Map(f, s)[i] == f(s[i])
  {
    if i > 0 {
      MapAt(f, s[1..], i - 1);
    }
  }

  lemma MultisetRemoveAt<A>(t: seq<A>, k: int)
    requires 0 <= k < |t|
    ensures multiset(t) == multiset(t[..k] + t[k + 1..]) + multiset{t[k]}
  {
    assert t == t[..k] + [t[k]] + t[k + 1..];
  }

  lemma {:induction false} MapRemoveAt<A, B>(f: A -> B, t: seq<A>, k: int)
    requires 0 <= k < |t|
    ensures multiset(Map(f, t)) == multiset(Map(f, t[..k] + t[k + 1..])) + multiset{f(t[k])}
  {
    var rest := t[..k] + t[k + 1..];
    if k == 0 {
      assert rest == t[1..];
    } else {
      MapRemoveAt(f, t[1..], k - 1);
      assert rest[0] == t[0];
      assert rest[1..] == t[1..][..k - 1] + t[1..][k..];
    }
  }

  /** Taking the head of `s` off `s`, and the same element off `t`, leaves equal multisets. */
  lemma RemoveMatchingHead<A>(s: seq<A>, t: seq<A>, k: int)
    requires s != [] && multiset(s) == multiset(t) && 0 <= k < |t| && t[k] == s[0]
    ensures multiset(s[1..]) == multiset(t[..k] + t[k + 1..])
  {
    var x := s[0];
    MultisetRemoveAt(t, k);
    assert s == [x] + s[1..];
    assert multiset(s) == multiset(s[1..]) + multiset{x};
    assert multiset(s[1..]) == (multiset(s[1..]) + multiset{x}) - multiset{x};
    assert multiset(t[..k] + t[k + 1..]) == (multiset(t[..k] + t[k + 1..]) + multiset{x}) - multiset{x};
  }

  /** Mapping two arrangements of the same elements gives two arrangements of the same results. */
  lemma {:induction false} MapPermutation<A, B>(f: A -> B, s: seq<A>, t: seq<A>)
    requires multiset(s) == multiset(t)
    ensures multiset(Map(f, s)) == multiset(Map(f, t))
  {
    if s != [] {
      assert s[0] in multiset(t);
      var k :| 0 <= k < |t| && t[k] == s[0];
      var t' := t[..k] + t[k + 1..];
      RemoveMatchingHead(s, t, k);
      MapPermutation(f, s[1..], t');
      MapRemoveAt(f, t, k);
    }
  }
}

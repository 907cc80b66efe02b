/** Removing every copy of a value from a sequence, as `Array.prototype.filter`
    with a `!==` test does it, and the facts the page logic needs about it. */
module Seqs {

  /** How many times `x` occurs in `s`. */
  function Count<T(==)>(s: seq<T>, x: T): nat {
    multiset(s)[x]
  }

  /** `s` with every element equal to `x` dropped, the others kept in order. */
  function RemoveAll<T(==)>(s: seq<T>, x: T): (r: seq<T>)
    ensures |r| <= |s|
    decreases |s|
  {
    if s == [] then []
    else (if s[0] == x then [] else [s[0]]) + RemoveAll(s[1..], x)
  }

  /** `RemoveAll` drops every copy of `x` and keeps every other element as
      often as it occurred. */
  lemma {:induction false} RemoveAllCounts<T>(s: seq<T>, x: T)
    ensures multiset(RemoveAll(s, x)) == multiset(s)[x := 0]
    ensures |RemoveAll(s, x)| == |s| - Count(s, x)
    decreases |s|
  {
    if s != [] {
      assert s == [s[0]] + s[1..];
      RemoveAllCounts(s[1..], x);
    }
  }

  /** `a` is `b` with some elements deleted: an order-preserving embedding. */
  ghost predicate IsSubsequence<T>(a: seq<T>, b: seq<T>)
    decreases |b|
  {
    if a == [] then true
    else if b == [] then false
    else if a[0] == b[0] then IsSubsequence(a[1..], b[1..])
    else IsSubsequence(a, b[1..])
  }

  /** The survivors of `RemoveAll` keep their relative order. */
  lemma {:induction false} RemoveAllIsSubsequence<T>(s: seq<T>, x: T)
    ensures IsSubsequence(RemoveAll(s, x), s)
    decreases |s|
  {
    if s != [] {
      var rest := RemoveAll(s[1..], x);
      RemoveAllIsSubsequence(s[1..], x);
      if s[0] == x {
        assert RemoveAll(s, x) == rest;
        SubsequenceOfTail(rest, s);
      } else {
        assert RemoveAll(s, x) == [s[0]] + rest;
        assert ([s[0]] + rest)[1..] == rest;
      }
    }
  }

  /** Dropping the head of the longer sequence keeps a subsequence a subsequence. */
  lemma {:induction false} SubsequenceOfTail<T>(a: seq<T>, b: seq<T>)
    requires b != []
    requires IsSubsequence(a, b[1..])
    ensures IsSubsequence(a, b)
    decreases |a| + |b|
  {
    if a != [] && a[0] == b[0] {
      // the first element of `a` is matched further along `b[1..]`; shorten both
      SubsequenceOfTailStep(a, b[1..]);
    }
  }

  /** A subsequence with its head dropped is still a subsequence. */
  lemma {:induction false} SubsequenceOfTailStep<T>(a: seq<T>, b: seq<T>)
    requires a != []
    requires IsSubsequence(a, b)
    ensures IsSubsequence(a[1..], b)
    decreases |a| + |b|
  {
    if b == [] {
    } else if a[0] == b[0] {
      if a[1..] != [] {
        SubsequenceOfTail(a[1..], b);
      }
    } else {
      SubsequenceOfTailStep(a, b[1..]);
      SubsequenceOfTail(a[1..], b);
    }
  }

  /** `RemoveAll` distributes over concatenation: it treats each element on its own. */
  lemma {:induction false} RemoveAllAppend<T>(a: seq<T>, b: seq<T>, x: T)
    ensures RemoveAll(a + b, x) == RemoveAll(a, x) + RemoveAll(b, x)
    decreases |a|
  {
    if a == [] {
      assert a + b == b;
    } else {
      assert (a + b)[1..] == a[1..] + b;
      RemoveAllAppend(a[1..], b, x);
    }
  }

  /** With no copy of `x` present, `RemoveAll` changes nothing. */
  lemma {:induction false} RemoveAllAbsent<T>(s: seq<T>, x: T)
    requires x !in s
    ensures RemoveAll(s, x) == s
    decreases |s|
  {
    if s != [] {
      RemoveAllAbsent(s[1..], x);
    }
  }

  /** Removing the same value twice is removing it once. */
  lemma RemoveAllIdempotent<T>(s: seq<T>, x: T)
    ensures RemoveAll(RemoveAll(s, x), x) == RemoveAll(s, x)
  {
    var r := RemoveAll(s, x);
    RemoveAllCounts(s, x);
    assert x !in multiset(r);
    RemoveAllAbsent(r, x);
  }

  /** When `x` occurs once, at position `k`, `RemoveAll` deletes just that position. */
  lemma RemoveAllSingle<T>(s: seq<T>, x: T, k: nat)
    requires k < |s| && s[k] == x
    requires Count(s, x) == 1
    ensures RemoveAll(s, x) == s[..k] + s[k + 1..]
  {
    var pre, post := s[..k], s[k + 1..];
    assert s == pre + [x] + post;
    assert multiset(pre)[x] + 1 + multiset(post)[x] == 1;
    RemoveAllAround(pre, post, x);
  }

  /** Removing the one copy of `x` that sits between two `x`-free pieces. */
  lemma RemoveAllAround<T>(pre: seq<T>, post: seq<T>, x: T)
    requires x !in pre && x !in post
    ensures RemoveAll(pre + [x] + post, x) == pre + post
  {
    var px := pre + [x];
    RemoveAllAppend(px, post, x);
    assert RemoveAll(px + post, x) == RemoveAll(px, x) + RemoveAll(post, x);
    RemoveAllAppend(pre, [x], x);
    assert RemoveAll(px, x) == RemoveAll(pre, x) + RemoveAll([x], x);
    RemoveAllAbsent(pre, x);
    RemoveAllAbsent(post, x);
    assert RemoveAll([x], x) == [];
    assert RemoveAll(px, x) == pre;
  }
}

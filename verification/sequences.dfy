/** Order-preserving filtering and mapping over sequences, the two array
    operations (`filter`, `map`) the action's decision logic is built from. */
module Sequences {

  /** `a` can be obtained from `b` by deleting elements, keeping order. */
  predicate IsSubsequence<T(==)>(a: seq<T>, b: seq<T>)
    decreases |b|
  {
    if |a| == 0 then true
    else if |b| == 0 then false
    else if a[0] == b[0] then IsSubsequence(a[1..], b[1..])
    else IsSubsequence(a, b[1..])
  }

  /** `Array.prototype.map`. */
  function Map<A, B>(f: A -> B, s: seq<A>): (r: seq<B>)
    ensures |r| == |s|
    ensures forall i :: 0 <= i < |s| ==> r[i] == f(s[i])
  {
    seq(|s|, i requires 0 <= i < |s| => f(s[i]))
  }

  /** `Array.prototype.filter`: the elements satisfying `p`, in order. */
  function Filter<T(==)>(p: T -> bool, s: seq<T>): (r: seq<T>)
    ensures |r| <= |s|
    ensures forall x :: x in r ==> x in s && p(x)
    ensures forall i :: 0 <= i < |s| && p(s[i]) ==> s[i] in r
  {
    if |s| == 0 then []
    else if p(s[0]) then [s[0]] + Filter(p, s[1..])
    else Filter(p, s[1..])
  }

  /** Filtering only deletes elements: the result keeps the order of `s`. */
  lemma {:induction false} FilterIsSubsequence<T>(p: T -> bool, s: seq<T>)
    ensures IsSubsequence(Filter(p, s), s)
  {
    if |s| > 0 {
      FilterIsSubsequence(p, s[1..]);
      var rest := Filter(p, s[1..]);
      if !p(s[0]) && |rest| > 0 {
        assert rest[0] in rest;
      }
    }
  }

  /** An element satisfying the predicate is kept as often as it occurs in
      `s`; any other element is dropped entirely. */
  lemma {:induction false} FilterCounts<T>(p: T -> bool, s: seq<T>, x: T)
    ensures multiset(Filter(p, s))[x] == if p(x) then multiset(s)[x] else 0
  {
    if |s| > 0 {
      FilterCounts(p, s[1..], x);
      assert s == [s[0]] + s[1..];
    }
  }

  /** Filtering keeps everything exactly when every element satisfies the
      predicate, and that is also exactly when no element is dropped. */
  lemma {:induction false} FilterKeepsAll<T>(p: T -> bool, s: seq<T>)
    ensures (forall i :: 0 <= i < |s| ==> p(s[i])) <==> Filter(p, s) == s
    ensures |Filter(p, s)| == |s| <==> Filter(p, s) == s
  {
    if exists k :: 0 <= k < |s| && !p(s[k]) {
      var k :| 0 <= k < |s| && !p(s[k]);
      FilterDropsFailing(p, s, k);
    } else {
      FilterOfAll(p, s);
    }
  }

  lemma {:induction false} FilterOfAll<T>(p: T -> bool, s: seq<T>)
    requires forall i :: 0 <= i < |s| ==> p(s[i])
    ensures Filter(p, s) == s
  {
    if |s| > 0 {
      FilterOfAll(p, s[1..]);
    }
  }

  /** An element failing the predicate makes the result strictly shorter. */
  lemma {:induction false} FilterDropsFailing<T>(p: T -> bool, s: seq<T>, k: nat)
    requires k < |s| && !p(s[k])
    ensures |Filter(p, s)| < |s|
  {
    if k > 0 {
      FilterDropsFailing(p, s[1..], k - 1);
    }
  }

  /** Filtering leaves something exactly when some element satisfies the predicate. */
  lemma FilterNonEmpty<T>(p: T -> bool, s: seq<T>)
    ensures |Filter(p, s)| > 0 <==> exists i :: 0 <= i < |s| && p(s[i])
  {
    if exists i :: 0 <= i < |s| && p(s[i]) {
      var i :| 0 <= i < |s| && p(s[i]);
      assert s[i] in Filter(p, s);
    }
  }

  /** The head of a non-empty filter result is the first element of `s`
      satisfying the predicate. */
  lemma {:induction false} FilterHeadIsFirst<T>(p: T -> bool, s: seq<T>)
    requires |Filter(p, s)| > 0
    ensures exists i :: 0 <= i < |s| && Filter(p, s)[0] == s[i] && p(s[i])
                        && forall j :: 0 <= j < i ==> !p(s[j])
  {
    if p(s[0]) {
      assert Filter(p, s)[0] == s[0];
    } else {
      FilterHeadIsFirst(p, s[1..]);
      var i :| 0 <= i < |s[1..]| && Filter(p, s[1..])[0] == s[1..][i] && p(s[1..][i])
               && forall j :: 0 <= j < i ==> !p(s[1..][j]);
      assert forall j :: 1 <= j < i + 1 ==> s[j] == s[1..][j - 1];
      assert Filter(p, s)[0] == s[i + 1];
    }
  }
}

/**
 * The array methods the CRM's handlers are written with: `filter`, `map`
 * over records, and `slice(0, n)`, with the facts about them that the
 * components rely on.
 */
module Seqs {

  /** `s.filter(p)` */
  function Filter<T>(s: seq<T>, p: T -> bool): (r: seq<T>)
    ensures |r| <= |s|
    ensures forall k :: 0 <= k < |r| ==> r[k] in s && p(r[k])
    ensures forall k :: 0 <= k < |s| && p(s[k]) ==> s[k] in r
  {
    if s == [] then [] else (if p(s[0]) then [s[0]] else []) + Filter(s[1..], p)
  }

  /** `r` is `s` with some elements left out and the others in their original order */
  predicate IsSubsequence<T(==)>(r: seq<T>, s: seq<T>)
    decreases |s|
  {
    if r == [] then true
    else if s == [] then false
    else (r[0] == s[0] && IsSubsequence(r[1..], s[1..])) || IsSubsequence(r, s[1..])
  }

  /** `filter` keeps the order of what it keeps */
  lemma {:induction false} FilterIsSubsequence<T>(s: seq<T>, p: T -> bool)
    ensures IsSubsequence(Filter(s, p), s)
  {
    if s != [] {
      FilterIsSubsequence(s[1..], p);
      var r := Filter(s, p);
      if p(s[0]) {
        assert r[0] == s[0] && r[1..] == Filter(s[1..], p);
      } else {
        assert r == Filter(s[1..], p);
        if r != [] {
          assert IsSubsequence(r, s[1..]);
        }
      }
    }
  }

  /** `filter` keeps every element that passes, as many times as it occurs, and nothing else */
  lemma {:induction false} FilterMultiset<T>(s: seq<T>, p: T -> bool, x: T)
    ensures multiset(Filter(s, p))[x] == if p(x) then multiset(s)[x] else 0
  {
    if s != [] {
      FilterMultiset(s[1..], p, x);
      assert s == [s[0]] + s[1..];
      assert multiset(s) == multiset([s[0]]) + multiset(s[1..]);
      assert multiset(Filter(s, p)) == multiset(if p(s[0]) then [s[0]] else []) + multiset(Filter(s[1..], p));
    }
  }

  /** A filter that every element passes keeps the whole sequence */
  lemma {:induction false} FilterAll<T>(s: seq<T>, p: T -> bool)
    requires forall k :: 0 <= k < |s| ==> p(s[k])
    ensures Filter(s, p) == s
  {
    if s != [] {
      FilterAll(s[1..], p);
      assert s == [s[0]] + s[1..];
    }
  }

  /** A filter keeps nothing exactly when no element passes */
  lemma FilterEmpty<T>(s: seq<T>, p: T -> bool)
    ensures Filter(s, p) == [] <==> forall k :: 0 <= k < |s| ==> !p(s[k])
  {
    if Filter(s, p) != [] {
      var x := Filter(s, p)[0];
      var k :| 0 <= k < |s| && s[k] == x;
      assert p(s[k]);
    }
  }

  /** Filters that agree on every element keep the same elements */
  lemma {:induction false} FilterExt<T>(s: seq<T>, p: T -> bool, q: T -> bool)
    requires forall k :: 0 <= k < |s| ==> p(s[k]) == q(s[k])
    ensures Filter(s, p) == Filter(s, q)
  {
    if s != [] {
      FilterExt(s[1..], p, q);
    }
  }

  /** No element occurs twice */
  predicate NoDuplicates<T(==)>(s: seq<T>) {
    forall i, j :: 0 <= i < j < |s| ==> s[i] != s[j]
  }

  /** Filtering a sequence without duplicates leaves none */
  lemma {:induction false} FilterNoDuplicates<T>(s: seq<T>, p: T -> bool)
    requires NoDuplicates(s)
    ensures NoDuplicates(Filter(s, p))
  {
    if s != [] {
      assert NoDuplicates(s[1..]) by {
        assert forall i :: 0 <= i < |s[1..]| ==> s[1..][i] == s[i + 1];
      }
      FilterNoDuplicates(s[1..], p);
      assert s[0] !in s[1..];
    }
  }

  /** Filtering a concatenation filters each part */
  lemma {:induction false} FilterAppend<T>(a: seq<T>, b: seq<T>, p: T -> bool)
    ensures Filter(a + b, p) == Filter(a, p) + Filter(b, p)
  {
    if a != [] {
      FilterAppend(a[1..], b, p);
      assert (a + b)[0] == a[0] && (a + b)[1..] == a[1..] + b;
    } else {
      assert a + b == b;
    }
  }

  /** Two filters that no element passes together keep at most the whole sequence between them */
  lemma {:induction false} FilterDisjoint<T>(s: seq<T>, p: T -> bool, q: T -> bool)
    requires forall k :: 0 <= k < |s| ==> !(p(s[k]) && q(s[k]))
    ensures |Filter(s, p)| + |Filter(s, q)| <= |s|
  {
    if s != [] {
      FilterDisjoint(s[1..], p, q);
    }
  }

  /** A prefix of a subsequence is a subsequence */
  lemma {:induction false} SubsequencePrefix<T>(q: seq<T>, r: seq<T>, s: seq<T>)
    requires q <= r && IsSubsequence(r, s)
    ensures IsSubsequence(q, s)
    decreases |s|
  {
    if q != [] && s != [] {
      if r[0] == s[0] && IsSubsequence(r[1..], s[1..]) {
        SubsequencePrefix(q[1..], r[1..], s[1..]);
      } else {
        SubsequencePrefix(q, r, s[1..]);
      }
    }
  }

  /** `s.slice(0, n)` for an integer `n`: a negative `n` counts back from the end */
  function SliceTo<T>(s: seq<T>, n: int): (r: seq<T>)
    ensures r <= s
    ensures n >= 0 ==> |r| == if n < |s| then n else |s|
    ensures n < 0 ==> |r| == if |s| + n > 0 then |s| + n else 0
  {
    var e := if n < 0 then (if |s| + n > 0 then |s| + n else 0) else (if n < |s| then n else |s|);
    s[..e]
  }
}

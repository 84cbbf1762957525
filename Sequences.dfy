/** Order-preserving selection from sequences: the subsequence relation and
    LINQ's `Where`. */
module Sequences {

  /** `a` is obtained from `b` by deleting elements, keeping the order of the
      rest. Matched greedily from the back. */
  predicate IsSubsequence<T(==)>(a: seq<T>, b: seq<T>)
    decreases |b|
  {
    if a == [] then true
    else if b == [] then false
    else if a[|a| - 1] == b[|b| - 1] then IsSubsequence(a[..|a| - 1], b[..|b| - 1])
    else IsSubsequence(a, b[..|b| - 1])
  }

  /** A subsequence stays one when its last element is dropped. */
  lemma {:induction false} SubsequenceDropLast<T>(a: seq<T>, b: seq<T>)
    requires a != [] && IsSubsequence(a, b)
    ensures IsSubsequence(a[..|a| - 1], b)
    decreases |b|, 0
  {
    var a', b' := a[..|a| - 1], b[..|b| - 1];
    assert b == b' + [b[|b| - 1]];
    if a[|a| - 1] == b[|b| - 1] {
      SubsequenceAppendRight(a', b', b[|b| - 1]);
    } else {
      SubsequenceDropLast(a, b');
      SubsequenceAppendRight(a', b', b[|b| - 1]);
    }
  }

  /** A subsequence stays one when the larger sequence grows at the end. */
  lemma {:induction false} SubsequenceAppendRight<T>(a: seq<T>, b: seq<T>, x: T)
    requires IsSubsequence(a, b)
    ensures IsSubsequence(a, b + [x])
    decreases |b|, 1
  {
    assert (b + [x])[..|b|] == b;
    if a != [] && a[|a| - 1] == x {
      SubsequenceDropLast(a, b);
    }
  }

  /** Every element of a subsequence is an element of the larger sequence. */
  lemma {:induction false} SubsequenceMembers<T>(a: seq<T>, b: seq<T>)
    requires IsSubsequence(a, b)
    ensures forall i :: 0 <= i < |a| ==> a[i] in b
    decreases |b|
  {
    if a != [] {
      var a', b' := a[..|a| - 1], b[..|b| - 1];
      if a[|a| - 1] == b[|b| - 1] {
        SubsequenceMembers(a', b');
        forall i | 0 <= i < |a| - 1
          ensures a[i] in b
        {
          assert a[i] == a'[i];
          assert b == b' + [b[|b| - 1]];
        }
      } else {
        SubsequenceMembers(a, b');
        assert b == b' + [b[|b| - 1]];
      }
    }
  }

  /** Both sides grown by the same element. */
  lemma SubsequenceAppendBoth<T>(a: seq<T>, b: seq<T>, x: T)
    requires IsSubsequence(a, b)
    ensures IsSubsequence(a + [x], b + [x])
  {
    assert (a + [x])[..|a|] == a;
    assert (b + [x])[..|b|] == b;
  }

  /** LINQ `Where`: the elements of `s` that satisfy `keep`, in their order. */
  function Where<T(==)>(s: seq<T>, keep: T -> bool): (r: seq<T>)
    ensures forall i :: 0 <= i < |r| ==> r[i] in s && keep(r[i])
    ensures forall i :: 0 <= i < |s| && keep(s[i]) ==> s[i] in r
    decreases |s|
  {
    if s == [] then []
    else
      var r' := Where(s[..|s| - 1], keep);
      if keep(s[|s| - 1]) then r' + [s[|s| - 1]] else r'
  }

  /** One more element at the end is kept or dropped on its own. */
  lemma WhereStep<T>(s: seq<T>, x: T, keep: T -> bool)
    ensures Where(s + [x], keep) == if keep(x) then Where(s, keep) + [x] else Where(s, keep)
  {
    assert (s + [x])[..|s|] == s;
  }

  /** `Where` keeps every occurrence of an element that satisfies the
      predicate and none of one that does not. */
  lemma {:induction false} WhereCount<T>(s: seq<T>, keep: T -> bool)
    ensures forall x :: multiset(Where(s, keep))[x] == if keep(x) then multiset(s)[x] else 0
    decreases |s|
  {
    if s != [] {
      var rest, last := s[..|s| - 1], s[|s| - 1];
      assert s == rest + [last];
      WhereCount(rest, keep);
      assert multiset(s) == multiset(rest) + multiset{last};
    }
  }

  /** `Where` keeps the order of what it keeps. */
  lemma {:induction false} WhereIsSubsequence<T>(s: seq<T>, keep: T -> bool)
    ensures IsSubsequence(Where(s, keep), s)
    decreases |s|
  {
    if s != [] {
      var rest, last := s[..|s| - 1], s[|s| - 1];
      assert s == rest + [last];
      WhereIsSubsequence(rest, keep);
      if keep(last) {
        SubsequenceAppendBoth(Where(rest, keep), rest, last);
      } else {
        SubsequenceAppendRight(Where(rest, keep), rest, last);
      }
    }
  }

  /** The conjunction of two predicates. */
  function And<T>(p: T -> bool, q: T -> bool): T -> bool {
    x => p(x) && q(x)
  }

  /** Two `Where` filters in a row keep what their conjunction keeps. */
  lemma {:induction false} WhereComposes<T>(s: seq<T>, p: T -> bool, q: T -> bool)
    ensures Where(Where(s, p), q) == Where(s, And(p, q))
    decreases |s|
  {
    if s != [] {
      var rest := s[..|s| - 1];
      WhereComposes(rest, p, q);
      var inner := Where(rest, p);
      if p(s[|s| - 1]) {
        assert Where(s, p) == inner + [s[|s| - 1]];
        assert (inner + [s[|s| - 1]])[..|inner|] == inner;
      }
    }
  }

  /** `Where` with a predicate that every element satisfies keeps everything. */
  lemma {:induction false} WhereKeepsAll<T>(s: seq<T>, keep: T -> bool)
    requires forall i :: 0 <= i < |s| ==> keep(s[i])
    ensures Where(s, keep) == s
    decreases |s|
  {
    if s != [] {
      WhereKeepsAll(s[..|s| - 1], keep);
      assert s == s[..|s| - 1] + [s[|s| - 1]];
    }
  }

  /** `Where` depends only on what its predicate says about the elements. */
  lemma {:induction false} WhereExtensional<T>(s: seq<T>, p: T -> bool, q: T -> bool)
    requires forall i :: 0 <= i < |s| ==> p(s[i]) == q(s[i])
    ensures Where(s, p) == Where(s, q)
    decreases |s|
  {
    if s != [] {
      WhereExtensional(s[..|s| - 1], p, q);
    }
  }
}

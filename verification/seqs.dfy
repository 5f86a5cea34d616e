/**
  Sequence combinators the cleaners are built from: `Array.prototype.filter`,
  `Array.prototype.map`, and the concatenation of per-item call blocks that a
  `for` loop over a list produces. All are defined by peeling the LAST element,
  which matches the way the loops grow their results.
 */
module Seqs {

  /** `a` is obtained from `b` by deleting elements, keeping the order of the rest. */
  ghost predicate IsSubsequence<T>(a: seq<T>, b: seq<T>)
    decreases |b|
  {
    || |a| == 0
    || (&& |b| > 0
        && (|| (a[|a| - 1] == b[|b| - 1] && IsSubsequence(a[..|a| - 1], b[..|b| - 1]))
            || IsSubsequence(a, b[..|b| - 1])))
  }

  /** `s.filter(p)`. */
  function Filter<T>(s: seq<T>, p: T -> bool): (r: seq<T>)
    ensures |r| <= |s|
    decreases |s|
  {
    if |s| == 0 then [] else Filter(s[..|s| - 1], p) + (if p(s[|s| - 1]) then [s[|s| - 1]] else [])
  }

  /** A filter keeps exactly the elements that satisfy its predicate. */
  lemma {:induction false} FilterMembership<T(!new)>(s: seq<T>, p: T -> bool)
    ensures forall x :: x in Filter(s, p) <==> x in s && p(x)
    decreases |s|
  {
    if |s| > 0 {
      var init := s[..|s| - 1];
      assert s == init + [s[|s| - 1]];
      FilterMembership(init, p);
    }
  }

  /** Filtering a sequence grown by one element. */
  lemma FilterSnoc<T>(s: seq<T>, x: T, p: T -> bool)
    ensures Filter(s + [x], p) == Filter(s, p) + (if p(x) then [x] else [])
  {
    assert (s + [x])[..|s|] == s;
  }

  /** Filtering distributes over concatenation. */
  lemma {:induction false} FilterAppend<T>(a: seq<T>, b: seq<T>, p: T -> bool)
    ensures Filter(a + b, p) == Filter(a, p) + Filter(b, p)
    decreases |b|
  {
    if |b| > 0 {
      var b' := b[..|b| - 1];
      assert (a + b)[..|a + b| - 1] == a + b';
      FilterAppend(a, b', p);
    } else {
      assert a + b == a;
    }
  }

  /** A filter keeps its input's order: the result is a subsequence of the input. */
  lemma {:induction false} FilterIsSubsequence<T>(s: seq<T>, p: T -> bool)
    ensures IsSubsequence(Filter(s, p), s)
    decreases |s|
  {
    if |s| > 0 {
      var init := s[..|s| - 1];
      FilterIsSubsequence(init, p);
      var r := Filter(s, p);
      if p(s[|s| - 1]) {
        assert r[..|r| - 1] == Filter(init, p);
      } else {
        assert r == Filter(init, p);
        SubsequenceOfPrefix(r, init, s);
      }
    }
  }

  /** A subsequence of a prefix is a subsequence of the whole. */
  lemma {:induction false} SubsequenceOfPrefix<T>(a: seq<T>, init: seq<T>, s: seq<T>)
    requires |s| > 0 && init == s[..|s| - 1]
    requires IsSubsequence(a, init)
    ensures IsSubsequence(a, s)
  {
  }

  /** Every sequence is a subsequence of itself. */
  lemma {:induction false} SubsequenceOfSelf<T>(s: seq<T>)
    ensures IsSubsequence(s, s)
    decreases |s|
  {
    if |s| > 0 {
      SubsequenceOfSelf(s[..|s| - 1]);
    }
  }

  /** A filter keeps every copy of a selected value and no copy of any other. */
  lemma {:induction false} FilterMultiplicity<T>(s: seq<T>, p: T -> bool, x: T)
    ensures multiset(Filter(s, p))[x] == if p(x) then multiset(s)[x] else 0
    decreases |s|
  {
    if |s| > 0 {
      var init := s[..|s| - 1];
      assert s == init + [s[|s| - 1]];
      FilterMultiplicity(init, p, x);
    }
  }

  /** A filter whose predicate holds of every element keeps the input unchanged. */
  lemma {:induction false} FilterKeepsAll<T>(s: seq<T>, p: T -> bool)
    requires forall i :: 0 <= i < |s| ==> p(s[i])
    ensures Filter(s, p) == s
    decreases |s|
  {
    if |s| > 0 {
      var init := s[..|s| - 1];
      assert s == init + [s[|s| - 1]];
      FilterKeepsAll(init, p);
    }
  }

  /** A filter whose predicate holds of no element yields nothing. */
  lemma {:induction false} FilterDropsAll<T>(s: seq<T>, p: T -> bool)
    requires forall i :: 0 <= i < |s| ==> !p(s[i])
    ensures Filter(s, p) == []
    decreases |s|
  {
    if |s| > 0 {
      FilterDropsAll(s[..|s| - 1], p);
    }
  }

  /**
    In `a + b`, when no element of `a` satisfies `q` and no element of `b` satisfies
    `p`, every element satisfying `p` comes before every element satisfying `q`.
   */
  lemma AppendOrdered<T>(a: seq<T>, b: seq<T>, p: T -> bool, q: T -> bool)
    requires forall k :: 0 <= k < |a| ==> !q(a[k])
    requires forall k :: 0 <= k < |b| ==> !p(b[k])
    ensures forall i, j :: 0 <= i < |a + b| && 0 <= j < |a + b| && p((a + b)[i]) && q((a + b)[j]) ==> i < j
  {
    assert forall i :: |a| <= i < |a + b| ==> (a + b)[i] == b[i - |a|];
    assert forall j :: 0 <= j < |a| ==> (a + b)[j] == a[j];
  }

  /** `s.map(f)`. */
  function Map<A, B>(s: seq<A>, f: A -> B): (r: seq<B>)
    ensures |r| == |s|
    ensures forall i :: 0 <= i < |s| ==> r[i] == f(s[i])
    decreases |s|
  {
    if |s| == 0 then [] else Map(s[..|s| - 1], f) + [f(s[|s| - 1])]
  }

  /** Mapping a sequence grown by one element. */
  lemma MapSnoc<A, B>(s: seq<A>, x: A, f: A -> B)
    ensures Map(s + [x], f) == Map(s, f) + [f(x)]
  {
    assert (s + [x])[..|s|] == s;
  }

  /** Concatenating the blocks of a sequence grown by one element. */
  lemma ConcatMapSnoc<A, B>(s: seq<A>, x: A, f: A -> seq<B>)
    ensures ConcatMap(s + [x], f) == ConcatMap(s, f) + f(x)
  {
    assert (s + [x])[..|s|] == s;
  }

  /** The concatenation of the blocks `f(s[0]) + f(s[1]) + ...`: what a loop over `s` emits. */
  function ConcatMap<A, B>(s: seq<A>, f: A -> seq<B>): seq<B>
    decreases |s|
  {
    if |s| == 0 then [] else ConcatMap(s[..|s| - 1], f) + f(s[|s| - 1])
  }

  lemma {:induction false} ConcatMapAppend<A, B>(a: seq<A>, b: seq<A>, f: A -> seq<B>)
    ensures ConcatMap(a + b, f) == ConcatMap(a, f) + ConcatMap(b, f)
    decreases |b|
  {
    if |b| > 0 {
      var b' := b[..|b| - 1];
      assert (a + b)[..|a + b| - 1] == a + b';
      ConcatMapAppend(a, b', f);
    } else {
      assert a + b == a;
    }
  }

  /**
    The block of item `i` sits, whole and uninterrupted, between the blocks of the
    items before it and the blocks of the items after it.
   */
  lemma ConcatMapBlock<A, B>(s: seq<A>, f: A -> seq<B>, i: nat)
    requires i < |s|
    ensures ConcatMap(s, f) == ConcatMap(s[..i], f) + f(s[i]) + ConcatMap(s[i + 1..], f)
  {
    var front, back := s[..i + 1], s[i + 1..];
    assert ConcatMap(s, f) == ConcatMap(front, f) + ConcatMap(back, f) by {
      assert s == front + back;
      ConcatMapAppend(front, back, f);
    }
    assert ConcatMap(front, f) == ConcatMap(s[..i], f) + f(s[i]) by {
      assert front[..|front| - 1] == s[..i];
    }
  }

  /** Filtering a loop's output is filtering each block. */
  lemma {:induction false} FilterConcatMapSnoc<A, B>(s: seq<A>, f: A -> seq<B>, p: B -> bool)
    requires |s| > 0
    ensures Filter(ConcatMap(s, f), p) == Filter(ConcatMap(s[..|s| - 1], f), p) + Filter(f(s[|s| - 1]), p)
  {
    FilterAppend(ConcatMap(s[..|s| - 1], f), f(s[|s| - 1]), p);
  }
}

/**
 * Generic pieces shared by the model: `Option`, LINQ's `Where` on sequences,
 * and the tally of a remote oracle's answers.
 */
module Collections {

  datatype Option<T> = None | Some(value: T)

  /** LINQ's `Where(p).ToList()`: the elements of `s` satisfying `p`, in order. */
  function Filter<T>(s: seq<T>, p: T -> bool): (r: seq<T>)
    ensures |r| <= |s|
    ensures forall k :: 0 <= k < |r| ==> p(r[k])
  {
    if s == [] then []
    else Filter(s[..|s| - 1], p) + (if p(s[|s| - 1]) then [s[|s| - 1]] else [])
  }

  /** An element is kept by `Filter` exactly when it is in `s` and satisfies `p`. */
  lemma {:induction false} FilterMember<T>(s: seq<T>, p: T -> bool, x: T)
    ensures x in Filter(s, p) <==> x in s && p(x)
  {
    if s != [] {
      FilterMember(s[..|s| - 1], p, x);
      assert s == s[..|s| - 1] + [s[|s| - 1]];
    }
  }

  /** Filtering one element more appends it when it passes. */
  lemma FilterSnoc<T>(s: seq<T>, x: T, p: T -> bool)
    ensures Filter(s + [x], p) == Filter(s, p) + (if p(x) then [x] else [])
  {
    assert (s + [x])[..|s + [x]| - 1] == s;
  }

  /** Filtering with a predicate every element meets keeps the whole sequence. */
  lemma {:induction false} FilterAll<T>(s: seq<T>, p: T -> bool)
    requires forall k :: 0 <= k < |s| ==> p(s[k])
    ensures Filter(s, p) == s
  {
    if s != [] {
      FilterAll(s[..|s| - 1], p);
      assert s == s[..|s| - 1] + [s[|s| - 1]];
    }
  }

  /** No id occurs twice: the condition under which LINQ's `ToDictionary` on the ids does not raise. */
  predicate UniqueIds(ids: seq<int>) {
    forall i, j :: 0 <= i < j < |ids| ==> ids[i] != ids[j]
  }

  /** The number of the first `n` remote calls (numbered from 0) that the oracle `accept` answers with success. */
  function Accepted(accept: nat -> bool, n: nat): (r: nat)
    ensures r <= n
  {
    if n == 0 then 0 else Accepted(accept, n - 1) + (if accept(n - 1) then 1 else 0)
  }

  /** An oracle that fails every call accepts none; one that never fails accepts all. */
  lemma {:induction false} AcceptedExtremes(accept: nat -> bool, n: nat)
    ensures (forall k :: 0 <= k < n ==> !accept(k)) ==> Accepted(accept, n) == 0
    ensures (forall k :: 0 <= k < n ==> accept(k)) ==> Accepted(accept, n) == n
  {
    if n > 0 {
      AcceptedExtremes(accept, n - 1);
    }
  }

  /** The multiset of a union of disjoint sets is the sum of their multisets. */
  lemma MultisetOfDisjointUnion<T>(a: set<T>, b: set<T>)
    requires a !! b
    ensures multiset(a + b) == multiset(a) + multiset(b)
  {
    forall x
      ensures multiset(a + b)[x] == (multiset(a) + multiset(b))[x]
    {
      if x in a { assert x !in b; }
    }
  }

  /** Appending an element not yet listed keeps a sequence a listing of a set, once per element. */
  lemma ListingStep<T>(order: seq<T>, done: set<T>, x: T)
    requires multiset(order) == multiset(done) && x !in done
    ensures multiset(order + [x]) == multiset(done + {x})
    ensures |order + [x]| == |done + {x}|
  {
    MultisetOfDisjointUnion(done, {x});
    assert |multiset(order + [x])| == |order + [x]|;
  }

  /** Moving one element from the pending part to the visited part keeps the split of the whole set. */
  lemma VisitStep<T>(seen: set<T>, todo: set<T>, all: set<T>, x: T)
    requires seen + todo == all && seen !! todo && x in todo
    ensures (seen + {x}) + (todo - {x}) == all && (seen + {x}) !! (todo - {x})
    ensures |todo - {x}| < |todo|
  {
  }

  /** Each element is kept by exactly one of `p` and its negation. */
  lemma {:induction false} FilterPartition<T>(s: seq<T>, p: T -> bool, q: T -> bool)
    requires forall x :: q(x) == !p(x)
    ensures |Filter(s, p)| + |Filter(s, q)| == |s|
  {
    if s != [] {
      FilterPartition(s[..|s| - 1], p, q);
    }
  }

  /** No element occurs twice. */
  ghost predicate NoDuplicates(s: seq<string>) {
    forall x :: multiset(s)[x] <= 1
  }

  /** Filtering keeps a sub-multiset of the elements. */
  lemma {:induction false} FilterSubMultiset(s: seq<string>, p: string -> bool)
    ensures multiset(Filter(s, p)) <= multiset(s)
  {
    if s != [] {
      FilterSubMultiset(s[..|s| - 1], p);
      assert s == s[..|s| - 1] + [s[|s| - 1]];
    }
  }

  /** LINQ's `Distinct()`: the first occurrence of each element, in order. */
  function Distinct(s: seq<string>): (r: seq<string>)
    ensures forall x :: x in r <==> x in s
    ensures NoDuplicates(r)
  {
    if s == [] then []
    else
      var d := Distinct(s[..|s| - 1]);
      assert forall x :: x in s[..|s| - 1] ==> x in s;
      if s[|s| - 1] in d then d else d + [s[|s| - 1]]
  }

  /**
   * First-occurrence order: the distinct elements of every prefix come first,
   * in the same order, so an element is placed when it first occurs.
   */
  lemma {:induction false} DistinctPrefix(s: seq<string>, n: nat)
    requires n <= |s|
    ensures Distinct(s[..n]) <= Distinct(s)
    decreases |s|
  {
    if n < |s| {
      var init := s[..|s| - 1];
      assert init[..n] == s[..n];
      DistinctPrefix(init, n);
    } else {
      assert s[..n] == s;
    }
  }

  /** A sequence without duplicates is as long as its set of elements. */
  lemma LengthOfDistinct(s: seq<string>)
    requires NoDuplicates(s)
    ensures |s| == |set x | x in s|
  {
    var a := set x | x in s;
    assert multiset(s) == multiset(a) by {
      forall x ensures multiset(s)[x] == multiset(a)[x] {
        if x in s { assert x in a; } else { assert x !in a; }
      }
    }
    assert |multiset(s)| == |s|;
  }
}

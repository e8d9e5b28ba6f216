/** Sequences without repetitions, as multisets. */
module DistinctSeqs {

  ghost predicate Distinct<T>(s: seq<T>) {
    forall i, j :: 0 <= i < j < |s| ==> s[i] != s[j]
  }

  lemma {:induction false} DistinctMultiplicity<T>(s: seq<T>, x: T)
    requires Distinct(s)
    ensures multiset(s)[x] == if x in s then 1 else 0
  {
    if s != [] {
      var rest := s[1..];
      assert s == [s[0]] + rest;
      DistinctMultiplicity(rest, x);
    }
  }

  /** A repetition-free sequence drawn from another one is no longer than it. */
  lemma {:induction false} DistinctSubset<T>(a: seq<T>, b: seq<T>)
    requires Distinct(a) && forall x :: x in a ==> x in b
    ensures multiset(a) <= multiset(b) && |a| <= |b|
  {
    forall x
      ensures multiset(a)[x] <= multiset(b)[x]
    {
      DistinctMultiplicity(a, x);
    }
    assert multiset(b) == multiset(a) + (multiset(b) - multiset(a));
  }

  lemma {:induction false} DistinctSameElements<T>(a: seq<T>, b: seq<T>)
    requires Distinct(a) && Distinct(b) && forall x :: x in a <==> x in b
    ensures multiset(a) == multiset(b) && |a| == |b|
  {
    DistinctSubset(a, b);
    DistinctSubset(b, a);
  }
}

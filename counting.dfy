/** Sequences without repeated elements, and the pigeonhole facts about them. */
module Counting {

  predicate Distinct<T(==)>(s: seq<T>) {
    forall i, j :: 0 <= i < j < |s| ==> s[i] != s[j]
  }

  lemma DistinctSnoc<T>(s: seq<T>, x: T)
    requires Distinct(s) && x !in s
    ensures Distinct(s + [x])
  {
  }

  function Elements<T(==)>(s: seq<T>): set<T> {
    set x | x in s
  }

  lemma {:induction false} ElementsBound<T>(s: seq<T>)
    ensures |Elements(s)| <= |s|
    ensures Distinct(s) ==> |Elements(s)| == |s|
  {
    if s != [] {
      var init, last := s[..|s| - 1], s[|s| - 1];
      assert s == init + [last];
      ElementsBound(init);
      assert Elements(s) == Elements(init) + {last};
      if Distinct(s) {
        assert Distinct(init);
        assert last !in Elements(init);
      }
    } else {
      assert Elements(s) == {};
    }
  }

  lemma SubsetCardinality<T>(a: set<T>, b: set<T>)
    requires a <= b
    ensures |a| <= |b|
    ensures |a| == |b| ==> a == b
  {
    assert b == a + (b - a);
    assert a * (b - a) == {};
  }

  /**
   * Pigeonhole: a repetition-free sequence drawn from a repetition-free `u` is no longer than `u`,
   * and if it is as long as `u` it holds every element of `u`.
   */
  lemma Pigeonhole<T>(s: seq<T>, u: seq<T>)
    requires Distinct(s) && Distinct(u)
    requires forall x :: x in s ==> x in u
    ensures |s| <= |u|
    ensures |s| == |u| ==> forall x :: x in u ==> x in s
  {
    ElementsBound(s);
    ElementsBound(u);
    SubsetCardinality(Elements(s), Elements(u));
    if |s| == |u| {
      forall x | x in u ensures x in s {
        assert x in Elements(u);
      }
    }
  }

  /** A sequence that holds every element of a repetition-free `u` is at least as long as `u`. */
  lemma Covering<T>(s: seq<T>, u: seq<T>)
    requires Distinct(u)
    requires forall x :: x in u ==> x in s
    ensures |u| <= |s|
  {
    ElementsBound(s);
    ElementsBound(u);
    SubsetCardinality(Elements(u), Elements(s));
  }
}

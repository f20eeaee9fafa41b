/**
 * The contract of the pairing shuffler. Its implementation is not part of
 * this model: a shuffle is any sequence with the same elements, counted
 * with multiplicity, as its input.
 */
module Shuffle {

  /** No element occurs twice. */
  predicate Distinct<T(==)>(s: seq<T>) {
    forall i, j :: 0 <= i < j < |s| ==> s[i] != s[j]
  }

  /** `o` is a reordering of `l`. */
  predicate IsShuffleOf<T(==)>(o: seq<T>, l: seq<T>) {
    multiset(o) == multiset(l)
  }

  /** In a sequence without repetitions, every element occurs at most once. */
  lemma {:induction false} DistinctOccursOnce<T>(l: seq<T>, x: T)
    requires Distinct(l)
    ensures multiset(l)[x] <= 1
  {
    if |l| > 0 {
      var init := l[..|l| - 1];
      assert l == init + [l[|l| - 1]];
      assert Distinct(init);
      DistinctOccursOnce(init, x);
      if x == l[|l| - 1] {
        assert x !in init;
      }
    }
  }

  /** An element at two positions occurs at least twice. */
  lemma RepeatedOccursTwice<T>(o: seq<T>, i: nat, j: nat)
    requires i < j < |o| && o[i] == o[j]
    ensures multiset(o)[o[i]] >= 2
  {
    assert o == o[..j] + [o[j]] + o[j + 1..];
    assert o[i] in o[..j];
  }

  /**
   * A shuffle of a sequence without repetitions has the same length, the
   * same elements and no repetitions either.
   */
  lemma ShuffleFacts<T>(o: seq<T>, l: seq<T>)
    requires IsShuffleOf(o, l) && Distinct(l)
    ensures |o| == |l|
    ensures forall x :: x in o <==> x in l
    ensures Distinct(o)
  {
    assert |multiset(o)| == |multiset(l)|;
    forall x ensures x in o <==> x in l {
      assert x in o <==> x in multiset(o);
      assert x in l <==> x in multiset(l);
    }
    forall i, j | 0 <= i < j < |o| ensures o[i] != o[j] {
      if o[i] == o[j] {
        RepeatedOccursTwice(o, i, j);
        DistinctOccursOnce(l, o[i]);
        assert false;
      }
    }
  }
}

/** Small helpers over sequences and sets shared by the cube model. */
module Collections {

  datatype Option<+T> = None | Some(value: T)

  /** The outcome of a check: it passes, or it fails for a reason. */
  datatype Verdict<+E> = Pass | Fail(reason: E)

  /** The set of the elements of a sequence (Python's `set(xs)`). */
  function Elements<T>(xs: seq<T>): set<T>
  {
    set x | x in xs
  }

  /** No element occurs twice. */
  predicate Distinct<T(==)>(xs: seq<T>)
  {
    forall i, j :: 0 <= i < j < |xs| ==> xs[i] != xs[j]
  }

  /** Taking one more element of a sequence appends that element. */
  lemma TakeSnoc<T>(xs: seq<T>, n: nat)
    requires n < |xs|
    ensures xs[..n + 1] == xs[..n] + [xs[n]]
  {
  }

  /** Appending `x` adds one occurrence of `x` and leaves every other count alone. */
  lemma CountSnoc<T>(xs: seq<T>, x: T, y: T)
    ensures multiset(xs + [x])[y] == multiset(xs)[y] + (if x == y then 1 else 0)
  {
  }

  lemma TakeAll<T>(xs: seq<T>)
    ensures xs[..|xs|] == xs
  {
  }

  lemma {:induction false} ElementsOfSnoc<T>(xs: seq<T>, x: T)
    ensures Elements(xs + [x]) == Elements(xs) + {x}
  {
    assert forall y :: y in xs + [x] <==> y in xs || y == x;
  }

  /** A sequence has at most as many distinct elements as it has elements. */
  lemma {:induction false} ElementsBound<T>(xs: seq<T>)
    ensures |Elements(xs)| <= |xs|
  {
    if xs != [] {
      var init := xs[..|xs| - 1];
      assert xs == init + [xs[|xs| - 1]];
      ElementsOfSnoc(init, xs[|xs| - 1]);
      ElementsBound(init);
    }
  }

  /** `len(set(xs)) == len(xs)` exactly when the elements of `xs` are pairwise distinct. */
  lemma {:induction false} DistinctIffFullSet<T>(xs: seq<T>)
    ensures |Elements(xs)| == |xs| <==> Distinct(xs)
  {
    if xs != [] {
      var init, last := xs[..|xs| - 1], xs[|xs| - 1];
      assert xs == init + [last];
      ElementsOfSnoc(init, last);
      DistinctIffFullSet(init);
      if last in init {
        var k :| 0 <= k < |init| && init[k] == last;
        assert xs[k] == xs[|xs| - 1];
        assert Elements(xs) == Elements(init);
        ElementsBound(init);
      } else {
        assert Distinct(xs) <==> Distinct(init);
      }
    }
  }

  /** A subset as large as a finite set is the whole set. */
  lemma SubsetOfSameSize<T>(a: set<T>, b: set<T>)
    requires a <= b && |a| == |b|
    ensures a == b
  {
    assert b == a + (b - a);
    assert a * (b - a) == {};
    assert |b - a| == 0;
  }
}

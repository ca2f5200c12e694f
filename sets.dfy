/** Facts about finite sets that the lookups of several modules share. */
module Sets {

  /** A set of at most one element that holds `x` is `{x}`. */
  lemma SingletonOf<T>(s: set<T>, x: T)
    requires x in s && |s| <= 1
    ensures s == {x}
  {
    assert |s - {x}| == |s| - 1;
    assert s - {x} == {};
    assert s == (s - {x}) + {x};
  }

  /** A subset is no larger than its superset. */
  lemma SubsetCard<T>(a: set<T>, b: set<T>)
    requires a <= b
    ensures |a| <= |b|
  {
    assert b == a + (b - a);
  }
}

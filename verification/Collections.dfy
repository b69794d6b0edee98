/** What several of the machines need about sequences and finite sets. */
module Collections {
  ghost predicate NoRepeats<T>(s: seq<T>) {
    forall i, j | 0 <= i < j < |s| :: s[i] != s[j]
  }

  /** Two sets that agree on everything but `x` differ in size by `x` alone. */
  lemma SizesOfSets<T>(a: set<T>, b: set<T>, x: T)
    requires forall y | y != x :: y in a <==> y in b
    ensures |b| - (if x in b then 1 else 0) == |a| - (if x in a then 1 else 0)
  {
    assert a - {x} == b - {x};
    assert |a - {x}| == |a| - (if x in a then 1 else 0);
    assert |b - {x}| == |b| - (if x in b then 1 else 0);
  }
}

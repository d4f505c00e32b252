/** IComparer<T> as a function, and the laws a comparer is expected to obey. */
module Comparers {

  /** IComparer<T>.Compare: negative, zero or positive as the first argument is below, level with or above the second. */
  type Comparer<!T> = (T, T) -> int

  /** A total preorder: the sign flips with the arguments, and "at most" is transitive. */
  ghost predicate IsComparer<T(!new)>(cmp: Comparer<T>)
  {
    (forall a, b :: cmp(a, b) < 0 <==> cmp(b, a) > 0) &&
    (forall a, b, c :: TransitiveAt(cmp, a, b, c))
  }

  /** "At most" is transitive through b. */
  ghost predicate TransitiveAt<T>(cmp: Comparer<T>, a: T, b: T, c: T)
  {
    cmp(a, b) <= 0 && cmp(b, c) <= 0 ==> cmp(a, c) <= 0
  }

  lemma Reflexive<T(!new)>(cmp: Comparer<T>, a: T)
    requires IsComparer(cmp)
    ensures cmp(a, a) == 0
  {
    assert cmp(a, a) < 0 <==> cmp(a, a) > 0;
  }

  /** At most is transitive. */
  lemma Transitive<T(!new)>(cmp: Comparer<T>, a: T, b: T, c: T)
    requires IsComparer(cmp)
    ensures cmp(a, b) <= 0 && cmp(b, c) <= 0 ==> cmp(a, c) <= 0
  {
    assert TransitiveAt(cmp, a, b, c);
  }

  /** At most then strictly below is strictly below; strictly below then at most is strictly below. */
  lemma StrictTransitive<T(!new)>(cmp: Comparer<T>, a: T, b: T, c: T)
    requires IsComparer(cmp)
    ensures cmp(a, b) <= 0 && cmp(b, c) < 0 ==> cmp(a, c) < 0
    ensures cmp(a, b) < 0 && cmp(b, c) <= 0 ==> cmp(a, c) < 0
  {
    assert TransitiveAt(cmp, c, a, b) && TransitiveAt(cmp, b, c, a);
  }

  /** Sorted in non-decreasing order by cmp. */
  ghost predicate Sorted<T>(s: seq<T>, cmp: Comparer<T>)
  {
    forall i, j | 0 <= i < j < |s| :: cmp(s[i], s[j]) <= 0
  }
}

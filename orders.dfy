/**
 * Strict total orders: the comparators behind the source's `sorted(...)` calls.
 */
module Orders {

  /** `lt` is irreflexive, transitive and relates every two distinct values. */
  ghost predicate StrictTotalOrder<K(!new)>(lt: (K, K) -> bool) {
    && (forall a :: !lt(a, a))
    && (forall a, b, c :: lt(a, b) && lt(b, c) ==> lt(a, c))
    && (forall a, b :: a != b ==> lt(a, b) || lt(b, a))
  }

  /** The natural order of integers (Integer and Long keys). */
  function IntLess(a: int, b: int): bool { a < b }

  lemma IntLessIsStrictTotal()
    ensures StrictTotalOrder(IntLess)
  {
  }
}

/** Comparison routines, as the containers receive them: a negative, zero or positive
    result for less, equivalent or greater. */
module Order {

  ghost predicate Chained<T>(cmp: (T, T) -> int, a: T, b: T, c: T) {
    cmp(a, b) <= 0 && cmp(b, c) <= 0 ==> cmp(a, c) <= 0
  }

  /** What every container and algorithm expects of its comparison routine: swapping the
      arguments swaps the sign, and "not greater" is transitive.  Equivalent elements
      need not be equal.  (The trigger keeps transitivity to the places that ask for it.) */
  ghost predicate TotalPreorder<T(!new)>(cmp: (T, T) -> int) {
    && (forall a, b :: cmp(a, b) < 0 <==> cmp(b, a) > 0)
    && (forall a, b, c {:trigger Chained(cmp, a, b, c)} :: Chained(cmp, a, b, c))
  }

  lemma Transitive<T(!new)>(cmp: (T, T) -> int, a: T, b: T, c: T)
    requires TotalPreorder(cmp) && cmp(a, b) <= 0 && cmp(b, c) <= 0
    ensures cmp(a, c) <= 0
    ensures cmp(a, b) < 0 || cmp(b, c) < 0 ==> cmp(a, c) < 0
  {
    assert Chained(cmp, a, b, c) && Chained(cmp, c, a, b) && Chained(cmp, b, c, a);
  }
}

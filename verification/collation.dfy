/** The abstract name ordering of the tree renderer.

    Names are compared with a three-way comparison in the style of
    `String.prototype.localeCompare`: a negative result means the first
    argument sorts first, zero that the two rank equally (distinct strings
    may rank equally under a locale), a positive result that the second sorts
    first. The locale rules themselves are not modelled; all a sort needs is
    that the comparison is consistent, which is what this module states. */
module Collation {

  /** Swapping the arguments flips the sign of the answer. */
  ghost predicate SignsAgree<T(!new)>(cmp: (T, T) -> int) {
    forall a, b :: cmp(a, b) < 0 <==> cmp(b, a) > 0
  }

  /** "Sorts no later than" is transitive. */
  ghost predicate Transitive<T(!new)>(cmp: (T, T) -> int) {
    forall a, b, c :: cmp(a, b) <= 0 && cmp(b, c) <= 0 ==> cmp(a, c) <= 0
  }

  /** A comparison a sort can rely on. */
  ghost predicate Consistent<T(!new)>(cmp: (T, T) -> int) {
    SignsAgree(cmp) && Transitive(cmp)
  }

  /** `a` may be placed before `b`. */
  predicate Leq<T>(cmp: (T, T) -> int, a: T, b: T) {
    cmp(a, b) <= 0
  }

  lemma LeqReflexive<T(!new)>(cmp: (T, T) -> int, a: T)
    requires Consistent(cmp)
    ensures cmp(a, a) == 0
    ensures Leq(cmp, a, a)
  {
  }

  lemma LeqTotal<T(!new)>(cmp: (T, T) -> int, a: T, b: T)
    requires Consistent(cmp)
    ensures Leq(cmp, a, b) || Leq(cmp, b, a)
  {
  }

  lemma LeqTransitive<T(!new)>(cmp: (T, T) -> int, a: T, b: T, c: T)
    requires Consistent(cmp)
    requires Leq(cmp, a, b) && Leq(cmp, b, c)
    ensures Leq(cmp, a, c)
  {
  }
}

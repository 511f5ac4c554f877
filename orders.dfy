/**
 * The caller-supplied comparison functions of the C code (`cmp_func_t` in heap.c,
 * `abb_comparar_clave_t` in abb.c) return a negative number, zero or a positive number.
 * The model takes them as arrow values and states what the code silently relies on.
 */
module Orders {

  /**
   * Names a triple of values.  Transitivity below fires only on this term, so a proof
   * applies it where it asks for it (through `Transitive`) instead of everywhere.
   */
  ghost predicate Chain<T>(x: T, y: T, z: T)
  {
    true
  }

  /** `cmp` orders every pair consistently: a total preorder read through the sign of `cmp`. */
  ghost predicate Preorder<T(!new)>(cmp: (T, T) -> int)
  {
    && (forall x, y :: cmp(x, y) < 0 <==> cmp(y, x) > 0)
    && (forall x, y, z {:trigger Chain(x, y, z)} :: cmp(x, y) >= 0 && cmp(y, z) >= 0 ==> cmp(x, z) >= 0)
  }

  lemma Transitive<T(!new)>(cmp: (T, T) -> int, x: T, y: T, z: T)
    requires Preorder(cmp) && cmp(x, y) >= 0 && cmp(y, z) >= 0
    ensures cmp(x, z) >= 0
  {
    assert Chain(x, y, z);
  }

  /** A preorder in which only equal values compare as zero: what a key comparator must be. */
  ghost predicate TotalOrder<T(!new)>(cmp: (T, T) -> int)
  {
    && Preorder(cmp)
    && (forall x, y :: cmp(x, y) == 0 <==> x == y)
  }
}

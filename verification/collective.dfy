/**
 * The two reductions the solver relies on: `PetscMax`/`PetscMin` on a pair
 * of values, and `MPI_Allreduce` with `MPI_MAX` or `MPI_MIN` across the
 * processes (petsc/euler2d/fdweno.c:252, 462-463, 599).  The other
 * processes' contributions arrive as a sequence; a reduction over them is a
 * fold, in whatever order, since maximum and minimum are associative and
 * commutative.
 */
module Collective {

  /** `PetscMax(a, b)`: `a < b ? b : a`. */
  function Max(a: real, b: real): (m: real)
    ensures m >= a && m >= b && (m == a || m == b)
  {
    if a < b then b else a
  }

  /** `PetscMin(a, b)`: `a < b ? a : b`. */
  function Min(a: real, b: real): (m: real)
    ensures m <= a && m <= b && (m == a || m == b)
  {
    if a < b then a else b
  }

  /**
   * `MPI_Allreduce(..., MPI_MAX, ...)` of this process's `local` with the
   * values of the others: an upper bound of all of them that is one of them.
   */
  function ReduceMax(local: real, others: seq<real>): (m: real)
    ensures m >= local && forall k :: 0 <= k < |others| ==> m >= others[k]
    ensures m == local || exists k :: 0 <= k < |others| && m == others[k]
  {
    if others == [] then local
    else Max(ReduceMax(local, others[..|others| - 1]), others[|others| - 1])
  }

  /**
   * `MPI_Allreduce(..., MPI_MIN, ...)` of this process's `local` with the
   * values of the others: a lower bound of all of them that is one of them.
   */
  function ReduceMin(local: real, others: seq<real>): (m: real)
    ensures m <= local && forall k :: 0 <= k < |others| ==> m <= others[k]
    ensures m == local || exists k :: 0 <= k < |others| && m == others[k]
  {
    if others == [] then local
    else Min(ReduceMin(local, others[..|others| - 1]), others[|others| - 1])
  }

  /**
   * Every process computes the same result: the reduction depends on the
   * set of contributions, not on which of them is the local one.
   */
  lemma {:induction false} ReduceMinSymmetric(a: real, b: real, rest: seq<real>)
    ensures ReduceMin(a, [b] + rest) == ReduceMin(b, [a] + rest)
  {
    if rest == [] {
      assert ([b] + rest)[..0] == [];
      assert ([a] + rest)[..0] == [];
    } else {
      var init := rest[..|rest| - 1];
      ReduceMinSymmetric(a, b, init);
      assert ([b] + rest)[..|rest|] == [b] + init;
      assert ([b] + rest)[|rest|] == rest[|rest| - 1];
      assert ([a] + rest)[..|rest|] == [a] + init;
      assert ([a] + rest)[|rest|] == rest[|rest| - 1];
    }
  }

  lemma {:induction false} ReduceMaxSymmetric(a: real, b: real, rest: seq<real>)
    ensures ReduceMax(a, [b] + rest) == ReduceMax(b, [a] + rest)
  {
    if rest == [] {
      assert ([b] + rest)[..0] == [];
      assert ([a] + rest)[..0] == [];
    } else {
      var init := rest[..|rest| - 1];
      ReduceMaxSymmetric(a, b, init);
      assert ([b] + rest)[..|rest|] == [b] + init;
      assert ([b] + rest)[|rest|] == rest[|rest| - 1];
      assert ([a] + rest)[..|rest|] == [a] + init;
      assert ([a] + rest)[|rest|] == rest[|rest| - 1];
    }
  }
}

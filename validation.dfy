/** The two validation predicates of the roster manager. */
module Validation {
  import opened Wrappers

  /** `validar_pontuacao`: a score is accepted when it lies in [0, 20]. */
  predicate ValidScore(p: real) {
    0.0 <= p <= 20.0
  }

  /** `validar_indice`: an internal position is accepted when it is in bounds. */
  predicate ValidIndex(i: int, size: int) {
    0 <= i < size
  }

  /**
   * The user picks an entry by its displayed number k, the program looks at
   * position k - 1, so the accepted numbers are exactly 1..size.
   */
  function DisplayedIndex(k: int, size: nat): (r: Option<nat>)
    ensures r.Some? <==> 1 <= k <= size
    ensures r.Some? ==> r.value < size && r.value + 1 == k
  {
    if ValidIndex(k - 1, size) then Some(k - 1) else None
  }
}

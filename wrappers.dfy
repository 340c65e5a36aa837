/** Option and Result, the two Rust sum types the model needs. */
module Wrappers {

  datatype Option<+T> = None | Some(value: T)

  datatype Result<+T, +E> = Ok(value: T) | Err(error: E)

  /** Rust's derived ordering on `Option<u64>`-like values: `None` is below
      every `Some`, and two `Some`s compare by their contents. `OptionGe(a, b)`
      is `a >= b`. */
  predicate OptionGe(a: Option<nat>, b: Option<nat>)
  {
    match (a, b)
    case (_, None) => true
    case (None, Some(_)) => false
    case (Some(x), Some(y)) => x >= y
  }

  /** `Some(x) >= b` holds for an absent bound and otherwise is the comparison
      of the contents. */
  lemma SomeAtLeast(x: nat, b: Option<nat>)
    ensures OptionGe(Some(x), b) <==> (b.None? || x >= b.value)
  {
  }
}

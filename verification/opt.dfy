/** The optional value used throughout the model: JavaScript's `undefined`
    (an absent field, an array read past its end) and "no saved data". */
module Opt {

  datatype Option<+T> = None | Some(value: T)

  /** True if the option carries a value; usable as a first-class predicate. */
  predicate IsSome<T>(o: Option<T>) {
    o.Some?
  }
}

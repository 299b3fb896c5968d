/** Outcome of an Elemental routine that either returns a value or raises a logic error. */
module Results {

  /** `LogicError(msg)` stands for a thrown `std::logic_error` (or a call to El's `LogicError`)
      carrying `msg`; `Ok(value)` is a normal return. */
  datatype Result<+T> = Ok(value: T) | LogicError(msg: string)
}

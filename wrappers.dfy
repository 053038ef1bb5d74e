/** The exceptions the engine throws, as values. */
module Wrappers {

  /** The `IllegalArgumentException`s of the source, one constructor per message, and the NaN the
      reliability estimate produces when it has no states. */
  datatype Error =
    | IncorrectLength    // a parameter vector's length differs from m
    | OutOfUnitRange     // some R_i or rho_i lies outside [0, 1]
    | OutOfDomain        // the inverse normal CDF was asked for u outside (0, 1)
    | NoStates           // the reliability of zero state vectors, 0 / 0 in the source

  datatype Result<+T> = Success(value: T) | Failure(error: Error)
}

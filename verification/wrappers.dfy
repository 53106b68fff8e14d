/*******************************************************************************
 *  Optional values, results and the Java failures the model distinguishes.
 *******************************************************************************/

module Wrappers {

  /** A value that may be absent; a Java reference that may be `null`. */
  datatype Option<+T> = None | Some(value: T) {
    function GetOr(default: T): T {
      match this
      case Some(v) => v
      case None => default
    }
  }

  /** The outcome of a Java call that either returns normally or throws. */
  datatype Result<+R, +E> = Success(value: R) | Failure(error: E) {
    predicate IsFailure() {
      Failure?
    }

    function PropagateFailure<U>(): Result<U, E>
      requires Failure?
    {
      Failure(error)
    }

    function Extract(): R
      requires Success?
    {
      value
    }
  }

  /** The exceptions of the modelled code, one constructor per distinct cause. */
  datatype Fault =
    | NullPointer(detail: string)          // NullPointerException
    | ClassCast                            // ClassCastException
    | IndexOutOfBounds                     // StringIndexOutOfBoundsException
    | InvalidDateFormat                    // IllegalArgumentException, malformed date
    | DateBeforeMinimum                    // IllegalArgumentException, year below 1900
    | InvalidPersonId(personId: int)       // SQLException "Invalid person ID: <id>"
    | InvalidSupplyId(supplyId: int)       // SQLException "Invalid supply ID: <id>"
    | InvalidLocationId(locationId: int)   // SQLException "Invalid location ID: <id>"
    | WaterIdNotSet                        // SQLException, water supply without an id
    | NonPositiveSupplyId                  // SQLException "Invalid supply ID" before an update
    | SupplyNotFound(missingId: int)       // SQLException "Supply not found with ID: <id>"
    | SimulatedFailure                     // RuntimeException "Simulated database failure"
}

/** Option and Result values: the model's stand-ins for Kotlin's nullable
    values and for the exceptions the source lets escape. */
module Wrappers {

  /** A Kotlin `T?`: `None` is `null`. */
  datatype Option<T> = None | Some(value: T) {
    /** Kotlin's elvis operator `this ?: default`. */
    function GetOr(default: T): T {
      match this
      case Some(v) => v
      case None => default
    }
  }

  /** The reason an operation of the source throws instead of returning. */
  datatype Error =
    | NullDereference          // `!!` on null, `min()!!` on an empty list
    | IndexOutOfBounds         // reading past the end of an array or list
    | NegativeArraySize        // `Array(n)` with n < 0
    | DivisionByZero           // Int division or remainder by zero
    | EndOfStream              // an ObjectInputStream read with nothing left
    | NotEnoughGroups          // "Can't collect N groups"

  /** A result that is either a value or the exception the source throws. */
  datatype Result<T> = Success(value: T) | Failure(error: Error)
}

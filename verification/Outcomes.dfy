/** Results in place of exceptions. Each error names one throw site or one library exception. */
module Outcomes {

  datatype Option<+T> = None | Some(value: T)

  datatype Error =
    | ControlIndexInvalid
    | PayloadSizeIncorrect
    | JsonObjectIncorrect
    | JsonTypeMismatch
    | FieldWidthUnsupported
    | BitPositionOutOfRange
    | RawValueOverflow
    | NumberOutOfRange
    | NumberMalformed
    | FrameLengthInvalid
    | ApduLengthWrong
    | ControlFieldIncorrect
    | ParityMismatch
    | ApciIncorrect
    | PriorityIncorrect
    | CommunicationTypeIncorrect
    | AddressInvalid
    | PayloadTooLong

  datatype Result<+T> = Ok(value: T) | Err(error: Error) {
    predicate IsFailure() {
      Err?
    }

    function PropagateFailure<U>(): Result<U>
      requires Err?
    {
      Err(error)
    }

    function Extract(): T
      requires Ok?
    {
      value
    }
  }

  /** The result of an operation that either completes or throws. */
  datatype Outcome = Done | Failed(error: Error)
}

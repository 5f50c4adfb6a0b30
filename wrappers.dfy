/** Failure-carrying result types shared by the codec and the protocol. */
module Wrappers {

  datatype Option<+T> = None | Some(value: T)

  /** The errors the client raises: thrown exceptions and rejected promises. */
  datatype Error =
    | OutOfRange                // Node's RangeError: a fixed-width read or write outside the buffer or the type's range
    | ReadAlreadyPending        // read() called while an earlier read() is still waiting
    | StreamClosed              // the socket closed before the requested bytes arrived
    | UnknownPacket(id: int)    // no decoder is registered for this packet id
    | InvalidPacket             // legacy response whose first byte is not 0xFF

  datatype Result<+T> = Ok(value: T) | Err(error: Error) {

    predicate IsFailure() {
      Err?
    }

    function PropagateFailure<U>(): Result<U>
      requires Err?
    {
      Err(error)
    }

    function Extract(): T
      requires Ok?
    {
      value
    }
  }
}

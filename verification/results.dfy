/** Failure-compatible wrappers shared by the codec and the resolver.

    The program signals every failure by raising a Python exception;
    here each exception becomes one constructor of `Error`, and every reader,
    encoder and resolver step returns a `Result`. */
module Results {

  /** The exceptions the program can raise, one constructor each. */
  datatype Error =
    | Truncated     // `struct.unpack` on a short read, or `read(1)[0]` at the end of the buffer
    | FieldRange    // `struct.pack` of a value outside the unsigned field's range
    | NotAscii      // a name that does not encode to (or decode from) ASCII
    | LabelTooLong  // `bytes([len(part)])` on a label of 256 bytes or more
    | PointerDepth  // compression pointers nested deeper than the decoder's bound
    | NotBytes      // `.decode` called on record data that is already text
    | Transport     // the datagram exchange with a nameserver failed
    | NoReferral    // a response with no answer, no glue and no nameserver
    | OutOfFuel     // the resolution bound ran out before an answer or an error

  datatype Result<+T> = Ok(value: T) | Err(error: Error) {
    predicate IsFailure() {
      Err?
    }

    function PropagateFailure<U>(): Result<U>
      requires Err?
    {
      Err(error)
    }

    function Extract(): T
      requires Ok?
    {
      value
    }
  }

  /** `r` succeeded with value `v` and next cursor position `next`. */
  predicate Yields<V(==)>(r: Result<(V, nat)>, v: V, next: nat)
  {
    r.Ok? && r.value.0 == v && r.value.1 == next
  }

  /** Python's `None`-or-value returns. */
  datatype Option<+T> = None | Some(value: T)
}

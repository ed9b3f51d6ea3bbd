/** Outcomes of the modelled operations. The exceptions the source throws become
    `Failure` values, so that every error path can be stated in a contract. */
module Results {

  /** The exceptions the modelled code can raise. */
  datatype Error =
    | SecretMissing   // an operation needed the secret key while it was null
    | EndOfStream     // BinaryReader.ReadInt32 with fewer than 4 bytes left
    | NegativeCount   // BinaryReader.ReadBytes asked for a negative number of bytes
    | Truncated       // a length prefix runs past the end of the data (strict decoder only)

  /** A value that may be absent (a nullable reference in the source). */
  datatype Option<+T> = None | Some(value: T)

  /** Either a value or the exception that replaced it. */
  datatype Result<+T> = Success(value: T) | Failure(error: Error) {
    predicate IsFailure() { Failure? }

    function PropagateFailure<U>(): Result<U>
      requires Failure?
    {
      Failure(error)
    }

    function Extract(): T
      requires Success?
    {
      value
    }
  }
}

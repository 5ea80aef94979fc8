/** The two ways a stage of the pipeline can end: Ruby's `raise "message"`
    becomes a failure value that carries the message. */
module Results {

  /** The outcome of a check that returns nothing on success. */
  datatype Outcome = Pass | Fail(message: string)

  /** A value, or the message of the error raised instead of producing it. */
  datatype Result<+T> = Success(value: T) | Failure(error: string)
}

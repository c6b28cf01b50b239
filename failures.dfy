/**
 * The exceptions the core throws, as values. A wrapping exception keeps its
 * cause, so a contract can say both what surfaced and what caused it.
 */
module Failures {
  import opened Wrappers

  datatype Error =
    /** DaoLayerException: a persistence step failed or affected no rows. */
    | DaoLayer(cause: Option<Error>)
    /** ServiceLayerException: a service step failed. */
    | ServiceLayer(cause: Option<Error>)
    /** ResourceNotFoundException (a ServiceLayerException). */
    | ResourceNotFound
    /** ResourceAlreadyExistException (a ServiceLayerException). */
    | ResourceAlreadyExist
    /** OtpGenerationFailedException: the generator produced no usable code. */
    | OtpGenerationFailed
    /** EmailServiceException: the notification could not be delivered. */
    | EmailService
    /** NullPointerException on a null argument or request field. */
    | NullReference
    /** IllegalArgumentException: the password encoder given a null password. */
    | IllegalArgument
    /** An exception raised by the database driver or MyBatis itself: malformed
        SQL, a violated key, or more than one row for a single-row query. */
    | SqlError
}

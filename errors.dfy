/** Error kinds of the mail package and the small wrappers that carry them.
    Go's package-level error values (wrapped with fmt.Errorf and %w) become
    one closed enumeration; a failure is one of these kinds. */
module Errors {

  datatype Option<+T> = None | Some(value: T)

  datatype Result<+T> = Success(value: T) | Failure(error: Error)

  datatype Error =
    // mail.go: configuration errors, reported when authentication is built
    | EmptyHost
    | EmptyPort
    | EmptyUsername
    | EmptyPassword
    // message.go: composition errors
    | EmptyFrom
    | EmptyTo
    | EmptySubject
    | EmptyBody
    | EmptyAttachment
    | FileNotFound
    // the address parser rejected this address
    | InvalidAddress(address: string)
    // the random source could not fill the UUID buffer
    | RandomSourceFailed
    // the SMTP collaborator reported a failure
    | Delivery(reason: string)
}

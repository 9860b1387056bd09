/** The canonical gRPC status codes and the status value that carries one (grpc-go's codes and status packages). */
module GrpcStatus {
  /** The seventeen canonical codes, in their numeric order 0 to 16. */
  datatype Code =
    | OK | Canceled | Unknown | InvalidArgument | DeadlineExceeded | NotFound
    | AlreadyExists | PermissionDenied | ResourceExhausted | FailedPrecondition
    | Aborted | OutOfRange | Unimplemented | Internal | Unavailable | DataLoss
    | Unauthenticated

  /** A status error: its code and its message, which status.Convert recovers unchanged. */
  datatype Status = Status(code: Code, message: string)
}

/** Failures of the route-netlink context (crates/nodenet-linux-context/src/error.rs). */
module SnapshotErrors {

  datatype SnapshotResource =
    | DatagramBytes
    | DumpBytes
    | DumpMessages
    | MessageAttributes
    | AttributeDepth
    | StringBytes
    | Interfaces
    | Addresses
    | Routes
    | Rules
    | Neighbors
    | MultipathNextHops
    | BufferedNotifications
    | BufferedNotificationBytes
    | UnknownAttributeBytes
    | SnapshotUnknownBytes

  datatype IncompleteReason =
    | DumpInterrupted
    | Overrun
    | ReceiveBufferOverflow
    | SequenceMismatch
    | SenderNotKernel
    | HeaderPortMismatch
    | DatagramTruncated
    | MissingTerminator
    | GenerationChanged
    | KernelError(code: int)
    | UnexpectedMessage
    | DisappearingInterface(index: int)

  /** Messages and operating-system details carried by the original variants are dropped. */
  datatype SnapshotError =
    | Io
    | Decode
    | LimitExceeded(resource: SnapshotResource, actual: int, maximum: int)
    | Incomplete(reason: IncompleteReason, attempts: nat)
    | UnsupportedAddressFamily(family: int)
    | InvalidQuery
    | Cancelled
    | DeadlineExceeded
    | ContextUnavailable

  function MakeIncomplete(reason: IncompleteReason): SnapshotError { Incomplete(reason, 1) }

  function WithAttempts(e: SnapshotError, attempts: nat): SnapshotError {
    match e
    case Incomplete(reason, _) => Incomplete(reason, attempts)
    case _ => e
  }
}

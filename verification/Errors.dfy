/** The stable status values of the kernel ABI. */
module Abi {

  datatype KernelStatus = Ok | InvalidArgument | PermissionDenied | NotFound | Busy | DeadlineExceeded | Internal
}

/** Kernel errors, the ABI status each maps to, and the result type. */
module Errors {
  import Abi

  datatype KernelError =
    | UnknownSyscall
    | InvalidArgument
    | InvalidUserBuffer
    | BufferTooLarge
    | BufferOutOfRange
    | ReservedBits
    | MissingCapability
    | PermissionDenied
    | NotFound
    | CapacityExceeded
    | Busy
    | DeadlineExceeded
    | InvalidState
    | Overlap
    | Sealed
    | Duplicate
    | Internal
  {
    function Status(): Abi.KernelStatus {
      match this
      case UnknownSyscall | InvalidArgument | InvalidUserBuffer | BufferTooLarge | BufferOutOfRange
        | ReservedBits | InvalidState | Overlap | Sealed | Duplicate => Abi.KernelStatus.InvalidArgument
      case MissingCapability | PermissionDenied => Abi.KernelStatus.PermissionDenied
      case NotFound => Abi.KernelStatus.NotFound
      case CapacityExceeded | Busy => Abi.KernelStatus.Busy
      case DeadlineExceeded => Abi.KernelStatus.DeadlineExceeded
      case Internal => Abi.KernelStatus.Internal
    }
  }

  datatype Result<+T> = Success(value: T) | Failure(error: KernelError) {
    predicate IsFailure() {
      Failure?
    }

    function PropagateFailure<U>(): Result<U>
      requires Failure?
    {
      Failure(error)
    }

    function Extract(): T
      requires Success?
    {
      value
    }
  }

  /** Which errors reach a caller as which status: none as Ok, and as InvalidArgument all that have
      no status of their own. */
  lemma StatusOfErrors(e: KernelError)
    ensures e.Status() == Abi.KernelStatus.PermissionDenied <==> e.MissingCapability? || e.PermissionDenied?
    ensures e.Status() == Abi.KernelStatus.NotFound <==> e.NotFound?
    ensures e.Status() == Abi.KernelStatus.Busy <==> e.CapacityExceeded? || e.Busy?
    ensures e.Status() == Abi.KernelStatus.DeadlineExceeded <==> e.DeadlineExceeded?
    ensures e.Status() == Abi.KernelStatus.Internal <==> e.Internal?
    ensures e.Status() != Abi.KernelStatus.Ok
  {
  }
}

/** Error codes shared by every layer (core/common/result.h, core/hle/hle.h). */
module Results {

  /** The host-side `Result` codes this model can produce. */
  datatype Error =
    | Ok
    | OutOfMemory
    | InvalidArgument
    | NotFound
    | IoError
    | NotImplemented
    | MemoryFault
    | NotContiguous

  /** The guest-facing Horizon results of the modelled SVCs. */
  datatype SvcResult =
    | Success
    | SvcOutOfMemory
    | SvcInvalidSize
    | SvcInvalidMemoryRange
    | SvcInvalidMemoryState
    | SvcInvalidPointer
    | SvcInvalidHandle
    | SvcConnectionClosed
    | SvcOutOfSessions
    | SvcOutOfRange
    | SvcNotFound
    | SvcNotImplemented

  datatype Option<+T> = None | Some(value: T)

  const TWO_TO_THE_64: nat := 0x1_0000_0000_0000_0000

  /** uint64_t: assigning to this type proves that the arithmetic did not wrap. */
  type U64 = x: int | 0 <= x < TWO_TO_THE_64

  type Byte = x: int | 0 <= x < 256
}

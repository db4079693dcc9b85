/** Types shared by the whole domain model: identifiers, nullable references,
    integer widths, clock ticks and the exceptions the domain code throws. */
module Common {

  /** A 128-bit globally unique identifier; 0 plays the role of Guid.Empty. */
  newtype Guid = x: int | 0 <= x < 0x1_0000_0000_0000_0000_0000_0000_0000_0000
  const EmptyGuid: Guid := 0

  /** The C# `int` type. */
  const Int32Min: int := -0x8000_0000
  const Int32Max: int := 0x7FFF_FFFF
  type Int32 = x: int | Int32Min <= x <= Int32Max

  /** DateTime and TimeSpan values, counted in .NET ticks (100 ns each). */
  type Ticks = int
  const TicksPerMinute: int := 600_000_000

  /** A C# reference or nullable value that may be null. */
  datatype Nullable<+T> = Null | NonNull(value: T)

  /** The `??` operator: the value when there is one, otherwise the default. */
  function OrDefault<T>(x: Nullable<T>, default: T): T
  {
    match x
    case NonNull(v) => v
    case Null => default
  }

  /** Why an InvalidOperationException was thrown. */
  datatype Reason =
    | DuplicateId       // "... with this ID already exists."
    | MissingEndpoint   // "One or both nodes do not exist."
    | SelfLoop          // "A link cannot connect a node to itself."
    | NotFound          // "... with ID ... not found."
    | AlreadyRunning    // "Timer is already running."
    | NotRunning        // "Timer is not running."
    | NotPaused         // "Timer is not paused."
    | NoActiveSession   // "No work session is currently active."
    | NoActiveBreak     // "No break is currently active."
    | TimerActive       // "Cannot change durations while timer is running or on break."

  /** The exceptions thrown by the domain code, with the offending parameter's name. */
  datatype Error =
    | ArgumentNull(paramName: string)
    | Argument(paramName: string)
    | InvalidOperation(reason: Reason)

  /** The outcome of an operation that returns nothing: it completed or it threw. */
  datatype Status = Ok | Fail(error: Error)

  /** The outcome of an operation that returns a value: the value or the exception. */
  datatype Result<+T> = Success(value: T) | Failure(error: Error)
}

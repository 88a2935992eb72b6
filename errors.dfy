/** Error values as the removal code sees them: `std::io::Error` either carries
    a raw OS error number or was built by the library itself without one. */
module Errors {

  datatype Option<+T> = None | Some(value: T)

  /** The raw OS error numbers the removal code and the abstract file system
      distinguish. Every other number is `EOther`. */
  datatype Code =
    | EISDIR | ELOOP | EMLINK | EFTYPE | EPERM | EACCES
    | ENOENT | EEXIST | ENOTDIR | ENOTEMPTY | EBUSY
    | EOther(n: int)

  /** The portable classification of an error (`std::io::ErrorKind`).
      `Other` is only ever the kind of an error the library builds itself;
      a raw OS error whose number has no kind of its own is `Uncategorized`. */
  datatype Kind =
    | NotFound | AlreadyExists | PermissionDenied | NotADirectory
    | IsADirectory | DirectoryNotEmpty | FilesystemLoop | TooManyLinks | ResourceBusy
    | Other | Uncategorized

  datatype Error = Os(code: Code) | Custom(kind: Kind)

  /** `io::Error::raw_os_error`. */
  function RawOsError(e: Error): Option<Code> {
    if e.Os? then Some(e.code) else None
  }

  /** `io::Error::kind`: a raw OS error is never of kind `Other`. */
  function KindOf(e: Error): (k: Kind)
    ensures e.Os? ==> k != Other
  {
    match e
    case Custom(k) => k
    case Os(c) =>
      match c
      case ENOENT => NotFound
      case EEXIST => AlreadyExists
      case EPERM => PermissionDenied
      case EACCES => PermissionDenied
      case ENOTDIR => NotADirectory
      case EISDIR => IsADirectory
      case ENOTEMPTY => DirectoryNotEmpty
      case ELOOP => FilesystemLoop
      case EMLINK => TooManyLinks
      case EBUSY => ResourceBusy
      case _ => Uncategorized
  }

  /** `io::Result<T>`, usable with `:-`. */
  datatype Result<+T> = Ok(value: T) | Err(error: Error) {
    predicate IsFailure() { Err? }

    function PropagateFailure<U>(): Result<U>
      requires Err?
    {
      Err(error)
    }

    function Extract(): T
      requires Ok?
    {
      value
    }
  }

  /** `io::Result<()>`. */
  type Outcome = Result<()>

  /** Forgets the value of a successful result. */
  function Drop<T>(r: Result<T>): Outcome {
    if r.Ok? then Ok(()) else Err(r.error)
  }
}

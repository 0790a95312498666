/**
 * How the browser file-system layer turns a numeric JavaScript error code
 * into an `io::Error`. The code arrives as a JavaScript value read with
 * `as_f64().unwrap()`: a value that is not a number panics, which is a
 * precondition here. NaN and the infinities compare unequal to every code.
 */
module IoErrors {
  import opened Wrappers

  /** An IEEE double as far as the classifier can tell: a finite value or not. */
  datatype F64 = Finite(x: real) | NonFinite

  datatype JsValue = JsNumber(n: F64) | JsOther

  datatype ErrorKind =
    | NotFound
    | NotADirectory
    | IsADirectory
    | PermissionDenied
    | InvalidFilename
    | DirectoryNotEmpty
    | Other

  datatype IoError = IoError(kind: ErrorKind, message: string)

  const INVALIDATED_STATE: string := "Invalidated origin private file system state"
  const UNKNOWN_ERROR: string := "Unknown error"

  /** The value compares equal to `c`, as `error == c` on an `f64` does. */
  predicate IsCode(v: JsValue, c: real)
    requires v.JsNumber?
  {
    v.n == Finite(c)
  }

  /** `js_io_error_to_rs_io_error(error, is_directory)`. */
  function ToIoError(v: JsValue, isDirectory: bool): (e: IoError)
    requires v.JsNumber?
    ensures e.kind == Other <==> !(IsCode(v, 0.0) || IsCode(v, 1.0) || IsCode(v, 2.0) || IsCode(v, 3.0))
    ensures e.kind == Other ==> (e.message == INVALIDATED_STATE <==> IsCode(v, 4.0) || IsCode(v, 5.0))
    ensures e.kind != DirectoryNotEmpty
  {
    if IsCode(v, 0.0) then IoError(NotFound, "File or directory not found")
    else if IsCode(v, 1.0) then
      if isDirectory then IoError(NotADirectory, "Not a directory")
      else IoError(IsADirectory, "Found directory")
    else if IsCode(v, 2.0) then IoError(PermissionDenied, "Permission denied")
    else if IsCode(v, 3.0) then IoError(InvalidFilename, "Invalid filename")
    else if IsCode(v, 4.0) || IsCode(v, 5.0) then IoError(Other, INVALIDATED_STATE)
    else IoError(Other, UNKNOWN_ERROR)
  }

  /** `js_io_error_to_rs_io_error_for_delete_directory`. */
  function ToIoErrorForDeleteDirectory(v: JsValue): (e: IoError)
    requires v.JsNumber?
    ensures e.kind == DirectoryNotEmpty <==> IsCode(v, 6.0)
    ensures !IsCode(v, 6.0) ==> e == ToIoError(v, true)
  {
    if IsCode(v, 6.0) then IoError(DirectoryNotEmpty, "Directory not empty")
    else ToIoError(v, true)
  }

  /**
   * The code an error came from, read back from its kind and message; codes 4
   * and 5 share one error, and every other code gives "Unknown error".
   */
  function CodeOf(e: IoError): Option<real>
  {
    match e.kind
    case NotFound => Some(0.0)
    case NotADirectory => Some(1.0)
    case IsADirectory => Some(1.0)
    case PermissionDenied => Some(2.0)
    case InvalidFilename => Some(3.0)
    case DirectoryNotEmpty => Some(6.0)
    case Other => if e.message == INVALIDATED_STATE then Some(4.0) else None
  }

  /**
   * The classification loses nothing for the codes it names: reading the
   * code back from the error gives the code, 4 and 5 aside.
   */
  lemma CodeRecovered(c: real, isDirectory: bool)
    ensures c in {0.0, 1.0, 2.0, 3.0, 6.0} ==> CodeOf(ToIoErrorForDeleteDirectory(JsNumber(Finite(c)))) == Some(c)
    ensures c in {0.0, 1.0, 2.0, 3.0} ==> CodeOf(ToIoError(JsNumber(Finite(c)), isDirectory)) == Some(c)
    ensures c in {4.0, 5.0} ==> CodeOf(ToIoError(JsNumber(Finite(c)), isDirectory)) == Some(4.0)
    ensures c !in {0.0, 1.0, 2.0, 3.0, 4.0, 5.0} ==> ToIoError(JsNumber(Finite(c)), isDirectory) == IoError(Other, UNKNOWN_ERROR)
  {
  }

  /** Code 1 is "not a directory" when a directory was expected and "is a directory" otherwise. */
  lemma CodeOneDependsOnExpectation(v: JsValue)
    requires v.JsNumber? && IsCode(v, 1.0)
    ensures ToIoError(v, true).kind == NotADirectory
    ensures ToIoError(v, false).kind == IsADirectory
    ensures ToIoErrorForDeleteDirectory(v).kind == NotADirectory
  {
  }

  /** The expectation flag only matters for code 1. */
  lemma OnlyCodeOneDependsOnExpectation(v: JsValue)
    requires v.JsNumber? && !IsCode(v, 1.0)
    ensures ToIoError(v, true) == ToIoError(v, false)
  {
  }

  /** NaN, the infinities and fractional codes are unknown errors. */
  lemma NonCodesAreUnknown(v: JsValue)
    requires v == JsNumber(NonFinite) || v == JsNumber(Finite(0.5))
    ensures ToIoError(v, false) == IoError(Other, UNKNOWN_ERROR)
    ensures ToIoErrorForDeleteDirectory(v) == IoError(Other, UNKNOWN_ERROR)
  {
  }
}

/** Failure-carrying datatypes shared by every module of the model.

    The source signals failure with .NET exceptions; the model returns a
    `Result` whose `Err` side names the exception kind that would have been
    thrown. */
module Wrappers {

  datatype Option<+T> = None | Some(value: T) {
    function GetOr(default: T): T {
      match this
      case Some(v) => v
      case None => default
    }
  }

  /** The exception kinds the modelled core raises. */
  datatype Error =
    | CorruptFile                 // InterpolationSearch: inconsistent segment layout
    | ArgumentOutOfRange          // bad offset, bad pool size, negative slice
    | ArgumentInvalid             // bad concurrency, duplicate dictionary key
    | InvalidOperation            // unsupported seek origin, read-only collection
    | NotSupported                // seeking a forward-only stream
    | ObjectDisposed              // use after dispose
    | IndexOutOfRange             // indexing an empty array
    | ConnectionFactoryFailed     // the pool's connection factory threw
    | ArticleNotFound             // a Usenet article is missing
    | UnsupportedRarCompression   // a RAR member is not stored (method m0)
    | PasswordProtectedRar        // a RAR volume is encrypted
    | InvalidArchiveFormat        // the archive reader rejected the headers
    | InvalidYencData             // a segment's yEnc encoding is damaged
    | NoVideoFilesFound           // the importable-video validator failed
    | BadHttpRequest(message: string)
    | FormatError                 // a number or boolean did not parse
    | OverflowError               // a parsed number does not fit its type
    | MissingEnvironment(name: string)
    | Unauthorized                // a download key did not match
    | Transient(message: string)  // any other failure (network, timeout, ...)

  datatype Result<+T> = Ok(value: T) | Err(error: Error) {
    predicate IsFailure() {
      Err?
    }

    function PropagateFailure<U>(): Result<U>
      requires Err?
    {
      Err(error)
    }

    function Extract(): T
      requires Ok?
    {
      value
    }
  }

  /** The failure kinds that finalize a queue job instead of retrying it:
      the source's NonRetryableDownloadException family plus the archive
      reader's and yEnc decoder's format exceptions. */
  predicate IsNonRetryable(e: Error) {
    e.UnsupportedRarCompression? || e.PasswordProtectedRar? || e.NoVideoFilesFound?
    || e.InvalidArchiveFormat? || e.InvalidYencData?
  }

  /** The human-readable message recorded in the history on failure. */
  function Message(e: Error): string {
    match e
    case CorruptFile => "Corrupt file."
    case ArgumentOutOfRange => "Specified argument was out of the range of valid values."
    case ArgumentInvalid => "Invalid argument."
    case InvalidOperation => "Operation is not valid."
    case NotSupported => "Specified method is not supported."
    case ObjectDisposed => "Cannot access a disposed object."
    case IndexOutOfRange => "Index was outside the bounds of the array."
    case ConnectionFactoryFailed => "Could not create a connection."
    case ArticleNotFound => "Article not found."
    case UnsupportedRarCompression => "Only rar files with compression method m0 are supported."
    case PasswordProtectedRar => "Password-protected RARs are not supported"
    case InvalidArchiveFormat => "Invalid archive format."
    case InvalidYencData => "Invalid yEnc data."
    case NoVideoFilesFound => "No importable videos found."
    case BadHttpRequest(m) => m
    case FormatError => "Input string was not in a correct format."
    case OverflowError => "Value was either too large or too small."
    case MissingEnvironment(n) => "The environment variable `" + n + "` must be set."
    case Unauthorized => "Invalid download key"
    case Transient(m) => m
  }
}

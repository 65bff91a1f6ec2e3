/**
 * The backend crate's error type `MauveError`, its `Display` text (derived
 * with `thiserror`), and the two conversions out of it: into the
 * `(Status, String)` pair a Rocket handler returns, and into the abort a
 * sled transaction closure returns.
 *
 * Errors of libraries the model does not contain (figment, sled, flume) are
 * carried as their own `Display` text.
 */
module BackendErrors {
  import opened Http
  import Utf8

  datatype CollectionError = PutObjectExistsNoReplace | ObjectNotFound

  datatype MauveError =
    | ConfigError(config: string)
    | RocketError(rocket: string)
    | Utf8Error(utf8: Utf8.Utf8Error)
    | SledError(sledText: string)
    | SledTxError(txText: string)
    | IoError(io: string)
    | SignalError(signal: string)
    | InvalidLabel(labelText: string)
    | Collection(coll: CollectionError)
    | BincodeError(bincode: string)
    | Oops(oops: string)

  /** `impl Display for CollectionError`. */
  function CollectionErrorText(e: CollectionError): string
  {
    match e
    case PutObjectExistsNoReplace => "Object exists with ident, replace=false"
    case ObjectNotFound => "Object not found"
  }

  /** The `#[error(...)]` texts. */
  function Display(e: MauveError): string
  {
    match e
    case ConfigError(m) => "Config error " + m
    case RocketError(m) => "Rocket exploded " + m
    case Utf8Error(u) => "Utf8 encoding error: " + Utf8.ErrorText(u)
    case SledError(m) => "Sled error " + m
    case SledTxError(m) => "Sled tx error " + m
    case IoError(m) => "IO error " + m
    case SignalError(m) => "Signaling error " + m
    case InvalidLabel(m) => "Invalid label string " + m
    case Collection(c) => CollectionErrorText(c)
    case BincodeError(m) => "bincode failed " + m
    case Oops(m) => "Oopsie " + m
  }

  /** `impl Into<MauveServeError> for MauveError`. */
  function IntoServe(e: MauveError): (r: (Status, string))
    ensures r.0 == Status.Conflict <==> e == Collection(PutObjectExistsNoReplace)
    ensures r.0 == NotFound <==> e == Collection(ObjectNotFound)
    ensures r.0 == ImATeapot <==> e.Oops?
    ensures r.0 == InternalServerError <==> !e.Collection? && !e.Oops?
    ensures r.0 != Ok
    ensures e.Collection? ==> r.1 == Display(e)
    ensures e.Oops? ==> r.1 == e.oops
    ensures e.InvalidLabel? ==> r.1 == Display(e)
  {
    match e
    case ConfigError(m) => (InternalServerError, m)
    case RocketError(m) => (InternalServerError, m)
    case SledError(m) => (InternalServerError, m)
    case SledTxError(m) => (InternalServerError, m)
    case Collection(c) =>
      (match c
       case PutObjectExistsNoReplace => (Status.Conflict, CollectionErrorText(c))
       case ObjectNotFound => (NotFound, CollectionErrorText(c)))
    case Oops(m) => (ImATeapot, m)
    case Utf8Error(u) => (InternalServerError, Utf8.ErrorText(u))
    case IoError(m) => (InternalServerError, m)
    case BincodeError(m) => (InternalServerError, m)
    case SignalError(m) => (InternalServerError, m)
    case InvalidLabel(l) => (InternalServerError, "Invalid label string " + l)
  }

  /** Apart from a collection error and an invalid label, the response drops the `Display` prefix and carries the bare payload text. */
  lemma ServeMessageIsPayload(e: MauveError)
    requires !e.Collection? && !e.InvalidLabel?
    ensures |IntoServe(e).1| < |Display(e)|
    ensures Display(e)[|Display(e)| - |IntoServe(e).1|..] == IntoServe(e).1
  {
  }

  /** sled's `Error::ReportableBug`, the only sled error the model constructs. */
  datatype SledFault = ReportableBug(bug: string)

  /** sled's `Display` text for `Error::ReportableBug`. */
  function SledFaultText(f: SledFault): string
  {
    "Unexpected bug has happened: " + f.bug + ". PLEASE REPORT THIS BUG!"
  }

  /**
   * A sled transaction whose closure failed with `Storage(fault)`: sled
   * returns `TransactionError::Storage(fault)`, which prints as the fault,
   * and `?` turns it into `SledTxError`.
   */
  function TxStorageError(f: SledFault): MauveError
  {
    SledTxError(SledFaultText(f))
  }

  /** sled's `ConflictableTransactionError`. */
  datatype TransactionError = Abort(fault: SledFault) | Conflict | Storage(storage: SledFault)

  /** `impl Into<ConflictableTransactionError> for MauveError`: the transaction always aborts, reporting the error's text. */
  function IntoTransactionError(e: MauveError): (r: TransactionError)
    ensures r.Abort? && r.fault.ReportableBug?
    ensures r.fault.bug == Display(e)
  {
    Abort(ReportableBug(Display(e)))
  }
}

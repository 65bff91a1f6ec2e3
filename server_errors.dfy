/**
 * The server crate's older `MauveError` (src/errors.rs): a subset of the
 * backend crate's variants with the same conversion into a Rocket response.
 */
module ServerErrors {
  import opened Http
  import Utf8
  import BackendErrors

  datatype CollectionError = PutObjectExistsNoReplace | ObjectNotFound

  datatype MauveError =
    | ConfigError(config: string)
    | RocketError(rocket: string)
    | Utf8Error(utf8: Utf8.Utf8Error)
    | SledError(sledText: string)
    | Collection(coll: CollectionError)
    | Oops(oops: string)

  /** `impl Display for CollectionError`. */
  function CollectionErrorText(e: CollectionError): string
  {
    match e
    case PutObjectExistsNoReplace => "Object exists with ident, replace=false"
    case ObjectNotFound => "Object not found"
  }

  /** `impl Into<MauveServeError> for MauveError`. */
  function IntoServe(e: MauveError): (r: (Status, string))
    ensures r.0 == Conflict <==> e == Collection(PutObjectExistsNoReplace)
    ensures r.0 == NotFound <==> e == Collection(ObjectNotFound)
    ensures r.0 == ImATeapot <==> e.Oops?
    ensures r.0 == InternalServerError <==> !e.Collection? && !e.Oops?
    ensures e.Collection? ==> r.1 == CollectionErrorText(e.coll)
    ensures e.Oops? ==> r.1 == e.oops
  {
    match e
    case ConfigError(m) => (InternalServerError, m)
    case RocketError(m) => (InternalServerError, m)
    case SledError(m) => (InternalServerError, m)
    case Collection(c) =>
      (match c
       case PutObjectExistsNoReplace => (Conflict, CollectionErrorText(c))
       case ObjectNotFound => (NotFound, CollectionErrorText(c)))
    case Oops(m) => (ImATeapot, m)
    case Utf8Error(u) => (InternalServerError, Utf8.ErrorText(u))
  }

  /** The same error, as the backend crate spells it. */
  function ToBackend(e: MauveError): BackendErrors.MauveError
  {
    match e
    case ConfigError(m) => BackendErrors.ConfigError(m)
    case RocketError(m) => BackendErrors.RocketError(m)
    case Utf8Error(u) => BackendErrors.Utf8Error(u)
    case SledError(m) => BackendErrors.SledError(m)
    case Collection(PutObjectExistsNoReplace) => BackendErrors.Collection(BackendErrors.PutObjectExistsNoReplace)
    case Collection(ObjectNotFound) => BackendErrors.Collection(BackendErrors.ObjectNotFound)
    case Oops(m) => BackendErrors.Oops(m)
  }

  /** Both crates answer every error the older one knows with the same status and message. */
  lemma AgreesWithBackend(e: MauveError)
    ensures IntoServe(e) == BackendErrors.IntoServe(ToBackend(e))
  {
  }

  /** Both crates print the collection errors alike. */
  lemma CollectionTextAgrees(e: CollectionError)
    ensures CollectionErrorText(e) == BackendErrors.CollectionErrorText(ToBackend(Collection(e)).coll)
  {
  }
}

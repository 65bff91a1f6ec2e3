/** The HTTP statuses the handlers answer with. */
module Http {

  datatype Status =
    | Ok                   // RFC 9110 section 15.3.1
    | NotFound             // RFC 9110 section 15.5.5
    | Conflict             // RFC 9110 section 15.5.10
    | ImATeapot            // RFC 2324 section 2.3.2
    | InternalServerError  // RFC 9110 section 15.6.1

  /** The numeric status code; only `Ok` is a success (2xx). */
  function Code(s: Status): (c: nat)
    ensures 200 <= c < 600
    ensures (200 <= c < 300) <==> s == Ok
    ensures (500 <= c) <==> s == InternalServerError
  {
    match s
    case Ok => 200
    case NotFound => 404
    case Conflict => 409
    case ImATeapot => 418
    case InternalServerError => 500
  }

  /** Different statuses carry different codes. */
  lemma CodeInjective(s: Status, t: Status)
    requires Code(s) == Code(t)
    ensures s == t
  {
  }
}

/** The closed set of results every counter operation ends in, and the HTTP
    status the resource answers each of them with. */
module Outcomes {

  /** One outcome per response the resource builds. Only `Ok` carries a body
      value; the error responses carry a fixed message, which is not modelled. */
  datatype Outcome =
    | Ok(value: int)          // 200 OK, the body is the value
    | Created                 // 201 CREATED, no body
    | NotFound                // 404 NOT_FOUND
    | Conflict                // 409 CONFLICT
    | PreconditionFailed      // 417 EXPECTATION_FAILED, message only
    | InvalidArgument         // 400 BAD_REQUEST

  /** The status code the resource picks for an outcome. */
  function Status(o: Outcome): (code: int)
    ensures code in {200, 201, 400, 404, 409, 417}
    ensures code < 300 <==> o.Ok? || o.Created?
  {
    match o
    case Ok(_) => 200
    case Created => 201
    case NotFound => 404
    case Conflict => 409
    case PreconditionFailed => 417
    case InvalidArgument => 400
  }

  /** Two outcomes of the same variant (their values may differ). */
  predicate SameKind(a: Outcome, b: Outcome) {
    (a.Ok? && b.Ok?) || a == b
  }

  /** A caller can tell the variants apart by status code alone. */
  lemma StatusIdentifiesKind(a: Outcome, b: Outcome)
    ensures Status(a) == Status(b) <==> SameKind(a, b)
  {
  }
}

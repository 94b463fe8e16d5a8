/** Vocabulary shared by every part of the model: identifiers, optional
    values and the outcome of a request handler. */
module Common {

  /** Document identifiers. The datastore hands them out; the model uses
      numbers drawn from a counter of the store. */
  type Id = nat

  datatype Option<T> = None | Some(value: T)

  /** What a request handler sends back: a success body (status 200 or 201)
      or one of the error statuses the controllers use, with its message. */
  datatype Response<T> =
    | Ok(value: T)
    | Created(value: T)
    | BadRequest(message: string)
    | Forbidden(message: string)
    | NotFound(message: string)
  {
    predicate IsSuccess() {
      Ok? || Created?
    }

    /** The HTTP status code the handler responds with. */
    function Status(): int {
      match this
      case Ok(_) => 200
      case Created(_) => 201
      case BadRequest(_) => 400
      case Forbidden(_) => 403
      case NotFound(_) => 404
    }
  }
}

/** What an endpoint hands back to the HTTP layer. */
module Http {

  /** A 200 with its JSON body, a 422 from request validation naming the rejected
      fields, or a 500 raised as an `HTTPException` with its `detail`. */
  datatype Response<+T> = Ok(body: T) | Unprocessable(fields: seq<string>) | ServerError(detail: string) {
    function StatusCode(): int {
      match this
      case Ok(_) => 200
      case Unprocessable(_) => 422
      case ServerError(_) => 500
    }
  }
}

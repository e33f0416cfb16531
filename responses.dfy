/** The action results the middleware controllers return, by status code:
    200 with a body or a message, 201 with the created resource, 204, 400
    with a message or with the model-state errors, 401, 404 and 500. */
module Responses {
  datatype Response<T> =
    | Ok(body: T)
    | OkMessage(message: string)
    | Created(body: T)
    | NoContent
    | BadRequest(message: string)
    | InvalidModel
    | Unauthorized(message: string)
    | NotFound
    | ServerError(message: string)
}

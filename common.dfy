/** The result envelope every handler answers with, and the tagged result a handler returns. */
module Common {
  import opened Wrappers
  import opened Platform

  /** ApiResponse and ApiResponse<T>: the non-generic envelope is the one whose `data` is None. */
  datatype ApiResponse<T> = ApiResponse(success: bool, message: Option<string>, errors: Option<seq<string>>, data: Option<T>)

  /** `new ApiResponse(success = true, message = null)`. */
  function Response<T>(success: bool := true, message: Option<string> := None): (r: ApiResponse<T>)
    ensures r.success == success && r.message == message
    ensures r.errors.None? && r.data.None?
  {
    ApiResponse(success, message, None, None)
  }

  /** `new ApiResponse(message)`: the error envelope. */
  function ErrorResponse<T>(message: string): (r: ApiResponse<T>)
    ensures !r.success && r.message == Some(message)
    ensures r.errors.None? && r.data.None?
  {
    ApiResponse(false, Some(message), None, None)
  }

  /** `new ApiResponse<T>(data)`, which chains to `base(true, null)`. */
  function DataResponse<T>(data: T): (r: ApiResponse<T>)
    ensures r.success && r.message.None?
    ensures r.errors.None? && r.data == Some(data)
  {
    ApiResponse(true, None, None, Some(data))
  }

  const InvalidPayload := "Invalid request payload."

  /** What a handler produces: the status the framework sends, with its body, or an exception
      that escapes the handler because nothing catches it. */
  datatype ActionResult<T> =
    | Ok(body: ApiResponse<T>)                      // 200
    | Created(routeId: Guid, body: ApiResponse<T>)  // 201, CreatedAtAction(GetById, { id, version = "1.0" })
    | NoContent                                     // 204
    | NotFound(body: ApiResponse<T>)                // 404
    | BadRequest(body: ApiResponse<T>)              // 400
    | Unhandled(error: Exception)                   // the exception propagates to the host
}

/** Outcomes of the backend's handlers: a value, or the status code and detail
    string of the HTTPException the handler raises. */
module Http {

  datatype Option<+T> = None | Some(value: T) {
    /** The wrapped value, or `default` when there is none. */
    function GetOr(default: T): T {
      if Some? then value else default
    }
  }

  /** `Err(code, detail)` is an `HTTPException(status_code=code, detail=detail)`,
      or, with code 500, an exception the handler does not catch. */
  datatype Response<+T> = Ok(value: T) | Err(code: int, detail: string)

  const StatusOk := 200
  const StatusBadRequest := 400
  const StatusUnauthorized := 401
  const StatusForbidden := 403
  const StatusNotFound := 404
  const StatusUnprocessable := 422
  const StatusServerError := 500

  /** Stands for the list of field errors FastAPI sends with a 422 reply. */
  const ValidationDetail := "Unprocessable Entity"

  /** The body the server sends for an exception no handler catches. */
  const ServerErrorDetail := "Internal Server Error"
}

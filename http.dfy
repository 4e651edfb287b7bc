/** What the HTTP layer sees of a handler: the bound request payload, the
    values kept in the request context, and the response written. */
module Http {
  import opened Common
  import opened Schema

  const StatusOK: int := 200
  const StatusCreated: int := 201
  const StatusPermanentRedirect: int := 308
  const StatusBadRequest: int := 400
  const StatusUnauthorized: int := 401
  const StatusTooManyRequests: int := 429

  /** One entry of the `errors` list of an error response. */
  datatype ErrorDetail = ErrorDetail(field: string, error: string)

  /** The JSON bodies the handlers write. */
  datatype Body =
    | ErrorBody(message: string, errors: seq<ErrorDetail>)
    | MessageBody(message: string)
    | TokensBody(message: string, token: string, refreshToken: string)
    | OtpSentBody(message: string, id: int, token: string)
    | UrlListBody(urls: seq<UrlWithShortCode>)
    | ShortUrlBody(message: string, shortUrl: string)

  datatype Response = Json(status: int, body: Body) | Redirect(status: int, location: string)

  /** Outcome of binding and validating a JSON payload into a struct. */
  datatype Bound<T> = Bound(value: T) | BindError(error: Error)

  /** A value stored in the request context under the logged-in-user key:
      absent, an `int64`, or a value of some other dynamic type. */
  datatype CtxValue = Absent | Int64Value(n: Int64) | OtherValue

  /** The context accessor `GetInt64`: the stored `int64`, or 0 when the
      value is absent or of another type. */
  function GetInt64(v: CtxValue): (n: Int64)
    ensures v.Int64Value? ==> n == v.n
    ensures !v.Int64Value? ==> n == 0
  {
    if v.Int64Value? then v.n else 0
  }
}

/** The single error writer every handler uses (utils/error.go). */
module ErrorResponse {
  import opened Common
  import opened Http
  import Validator

  /** The `errors` list for a list of validation failures: one entry per
      failure, in order, carrying the field and the message for its tag. */
  function Details(fes: seq<FieldError>): (ds: seq<ErrorDetail>)
    ensures |ds| == |fes|
    ensures forall i :: 0 <= i < |fes| ==>
      ds[i].field == fes[i].field && ds[i].error == Validator.MsgForTag(fes[i])
  {
    seq(|fes|, i requires 0 <= i < |fes| => ErrorDetail(fes[i].field, Validator.MsgForTag(fes[i])))
  }

  /** The response written for a non-nil error: 400 with "Request failed"
      and the details for validation failures, 400 with the error's own
      text and no details otherwise. */
  function ResponseFor(err: Error): (r: Response)
    ensures r.Json? && r.status == StatusBadRequest && r.body.ErrorBody?
    ensures err.Invalid? ==> r.body.message == "Request failed" && r.body.errors == Details(err.fieldErrors)
    ensures err.Plain? ==> r.body.message == err.message && r.body.errors == []
  {
    match err
    case Invalid(fes) => Json(StatusBadRequest, ErrorBody("Request failed", Details(fes)))
    case Plain(msg) => Json(StatusBadRequest, ErrorBody(msg, []))
  }

  /** Writes nothing for a nil error; otherwise fills the details list
      entry by entry and writes the 400 response. */
  method HandleValidationError(err: Option<Error>) returns (resp: Option<Response>)
    ensures err.None? <==> resp.None?
    ensures err.Some? ==> resp == Some(ResponseFor(err.value))
  {
    if err.None? {
      return None;
    }
    match err.value
    case Invalid(ve) =>
      var out := new ErrorDetail[|ve|](_ => ErrorDetail("", ""));
      ghost var details := Details(ve);
      var i := 0;
      while i < |ve|
        invariant 0 <= i <= |ve|
        invariant forall k :: 0 <= k < i ==> out[k] == details[k]
      {
        out[i] := ErrorDetail(ve[i].field, Validator.MsgForTag(ve[i]));
        i := i + 1;
      }
      assert out[..] == details;
      resp := Some(Json(StatusBadRequest, ErrorBody("Request failed", out[..])));
    case Plain(msg) =>
      resp := Some(Json(StatusBadRequest, ErrorBody(msg, [])));
  }

  /** A handler's early return with a non-nil error. */
  method WriteError(err: Error) returns (resp: Response)
    ensures resp == ResponseFor(err)
  {
    var written := HandleValidationError(Some(err));
    resp := written.value;
  }
}

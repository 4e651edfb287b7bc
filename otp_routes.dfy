/** The OTP endpoints (routes/otp.go): `POST /send` issues an OTP, `POST
    /verify` checks one without consuming it. The mail dispatched after a
    successful send is returned as the OTP handed to the mailer. */
module OtpRoutes {
  import opened Common
  import opened Schema
  import opened Http
  import opened OtpModel
  import opened ErrorResponse

  /** The send request. */
  datatype SendOtp = SendOtp(otpType: string, action: string, key: string)

  const MsgInvalidTypeOrAction := "Invalid OTP type or action type"
  const MsgOtpSent := "OTP sent successfully"
  const MsgOtpVerified := "OTP verified successfully"

  /** The `Otp` value a send request starts from: key, type and action set,
      everything else zero except the status, which is `Pending` where the
      source leaves it the empty string. */
  function Requested(req: SendOtp): OtpRow {
    OtpRow(0, req.key, req.otpType, req.action, "", "", 0, Pending)
  }

  /** `handleSendOTP`. */
  method HandleSendOtp(db: Db, payload: Bound<SendOtp>, n: OtpNumber, now: Time, expiryMinutes: int,
                       token: string, f: GenerateFaults)
    returns (resp: Response, mail: Option<OtpRow>)
    requires db.Valid()
    modifies db`otps, db`nextOtpId
    ensures db.Valid()
    ensures payload.BindError? ==>
      resp == ResponseFor(payload.error) && mail.None? &&
      db.otps == old(db.otps) && db.nextOtpId == old(db.nextOtpId)
    ensures payload.Bound? && !(IsValidType(payload.value.otpType) && IsValidAction(payload.value.action)) ==>
      resp == ResponseFor(Plain(MsgInvalidTypeOrAction)) && mail.None? &&
      db.otps == old(db.otps) && db.nextOtpId == old(db.nextOtpId)
    ensures payload.Bound? && IsValidType(payload.value.otpType) && IsValidAction(payload.value.action) ==>
      var g := GenerateSpec(old(db.otps), old(db.nextOtpId), db.users, Requested(payload.value), n, now,
                            Window(expiryMinutes), token, f);
      db.otps == g.rows && db.nextOtpId == g.nextId &&
      (g.err.Some? ==> resp == ResponseFor(g.err.value) && mail.None?) &&
      (g.err.None? ==> resp == Json(StatusOK, OtpSentBody(MsgOtpSent, g.otp.id, g.otp.token)) && mail == Some(g.otp))
  {
    mail := None;
    if payload.BindError? {
      resp := WriteError(payload.error);
      return;
    }
    var req := payload.value;
    if !IsValidType(req.otpType) || !IsValidAction(req.action) {
      resp := WriteError(Plain(MsgInvalidTypeOrAction));
      return;
    }
    var otp := new Otp(Requested(req));
    var err := otp.Generate(db, n, now, expiryMinutes, token, f);
    if err.Some? {
      resp := WriteError(err.value);
      return;
    }
    mail := Some(otp.Value());
    resp := Json(StatusOK, OtpSentBody(MsgOtpSent, otp.id, otp.token));
  }

  /** `handleVerifyOTP`: the dry-run verification, so it never marks an OTP
      `success`; a stale row may still be expired by it. */
  method HandleVerifyOtp(db: Db, payload: Bound<VerifyOtp>, now: Time, expiryMinutes: int, f: VerifyFaults)
    returns (resp: Response)
    requires db.Valid()
    modifies db`otps
    ensures db.Valid()
    ensures payload.BindError? ==> resp == ResponseFor(payload.error) && db.otps == old(db.otps)
    ensures payload.Bound? ==>
      var v := VerifySpec(old(db.otps), payload.value, false, now, Window(expiryMinutes), f);
      db.otps == v.rows &&
      (v.err.Some? ==> resp == ResponseFor(v.err.value)) &&
      (v.err.None? ==> resp == Json(StatusOK, MessageBody(MsgOtpVerified)))
    ensures |db.otps| == |old(db.otps)|
    ensures forall j :: 0 <= j < |db.otps| && db.otps[j].status == Success ==> old(db.otps)[j].status == Success
  {
    if payload.BindError? {
      resp := WriteError(payload.error);
      return;
    }
    DryRunNeverCommits(db.otps, payload.value, now, Window(expiryMinutes), f);
    var err := Verify(db, payload.value, now, expiryMinutes, f);
    if err.Some? {
      resp := WriteError(err.value);
      return;
    }
    resp := Json(StatusOK, MessageBody(MsgOtpVerified));
  }
}

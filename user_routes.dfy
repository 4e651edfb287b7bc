/** The account endpoints (routes/user.go): login, sign-up, token refresh
    and credential check, each a fixed order of steps over the OTP engine,
    the users table and the token issuers. The `User` methods whose bodies
    are not part of this model (credential check, access- and refresh-token
    issue) are function parameters. */
module UserRoutes {
  import opened Common
  import opened Schema
  import opened Http
  import opened ErrorResponse
  import opened OtpModel
  import opened UserModel
  import Validator
  import AuthMiddleware

  /** The login payload, with the OTP token and code it carries. */
  datatype LoginUser = LoginUser(email: string, password: string, otpToken: string, otpCode: string)

  /** The sign-up payload, with the OTP token and code it carries. */
  datatype SignUpUser = SignUpUser(email: string, password: string, otpToken: string, otpCode: string)

  /** The credential-check payload. */
  datatype UserCredentials = UserCredentials(email: string, password: string)

  /** `ValidateCredentials` (returning the receiver as it leaves it, or the
      error), `GenerateJWT` and `GenerateRefreshJWT`. */
  datatype AuthOracles = AuthOracles(
    validateCredentials: UserRow -> Result<UserRow>,
    generateJwt: UserRow -> Result<string>,
    generateRefreshJwt: UserRow -> Result<string>)

  const MsgLoggedIn := "User logged in successfully !"
  const MsgSignedUp := "User signed up successfully !"
  const MsgTokenRefreshed := "Token refreshed successfully !"
  const MsgTokenMissing := "Authorization token missing"
  const MsgCredentialsValid := "User credentials are valid."

  // ---------------------------------------------------------------------
  // Payload validation (the struct tags of the two payload types)

  /** The validator's report for one failed rule on one field. */
  function FieldFailure(structName: string, field: string, tag: string): FieldError {
    FieldError(field, tag, "",
      "Key: '" + structName + "." + field + "' Error:Field validation for '" + field + "' failed on the '" + tag + "' tag")
  }

  /** `Email` is required; `Password` is required and must pass `strongpwd`. */
  function ValidateSignUp(p: SignUpUser): (errs: seq<FieldError>)
    ensures errs == [] <==> p.email != "" && Validator.StrongPassword(p.password)
    ensures forall i :: 0 <= i < |errs| ==> errs[i].tag == "required" || errs[i].tag == "strongpwd"
  {
    (if p.email == "" then [FieldFailure("SignUpUser", "Email", "required")] else []) +
    (if p.password == "" then [FieldFailure("SignUpUser", "Password", "required")]
     else if !Validator.StrongPassword(p.password) then [FieldFailure("SignUpUser", "Password", "strongpwd")]
     else [])
  }

  /** `Email` and `Password` are required. */
  function ValidateLogin(p: LoginUser): (errs: seq<FieldError>)
    ensures errs == [] <==> p.email != "" && p.password != ""
    ensures forall i :: 0 <= i < |errs| ==> errs[i].tag == "required"
  {
    (if p.email == "" then [FieldFailure("LoginUser", "Email", "required")] else []) +
    (if p.password == "" then [FieldFailure("LoginUser", "Password", "required")] else [])
  }

  /** Binding: a body that failed to decode keeps its error; a decoded one
      is checked against the struct tags. */
  function BindSignUp(decoded: Bound<SignUpUser>): (b: Bound<SignUpUser>)
    ensures b.Bound? <==> decoded.Bound? && decoded.value.email != "" && Validator.StrongPassword(decoded.value.password)
    ensures b.Bound? ==> b == decoded
  {
    if decoded.BindError? then decoded
    else
      var errs := ValidateSignUp(decoded.value);
      if errs == [] then decoded else BindError(Invalid(errs))
  }

  function BindLogin(decoded: Bound<LoginUser>): (b: Bound<LoginUser>)
    ensures b.Bound? <==> decoded.Bound? && decoded.value.email != "" && decoded.value.password != ""
    ensures b.Bound? ==> b == decoded
  {
    if decoded.BindError? then decoded
    else
      var errs := ValidateLogin(decoded.value);
      if errs == [] then decoded else BindError(Invalid(errs))
  }

  /** A weak password on sign-up is answered with the `strongpwd` message. */
  lemma WeakPasswordAnswer(p: SignUpUser)
    requires p.email != "" && p.password != "" && !Validator.StrongPassword(p.password)
    ensures ResponseFor(BindSignUp(Bound(p)).error) ==
      Json(StatusBadRequest, ErrorBody("Request failed", [ErrorDetail("Password",
        Validator.MsgWeakPassword)]))
  {
    var errs := ValidateSignUp(p);
    assert errs == [FieldFailure("SignUpUser", "Password", "strongpwd")];
    assert Details(errs)[0] == ErrorDetail("Password", Validator.MsgForTag(errs[0]));
  }

  function LoginOtp(p: LoginUser): VerifyOtp {
    VerifyOtp(p.otpToken, p.otpCode, ActionLogin)
  }

  function SignUpOtp(p: SignUpUser): VerifyOtp {
    VerifyOtp(p.otpToken, p.otpCode, ActionSignUp)
  }

  // ---------------------------------------------------------------------
  // Handlers

  /** `handleLogin`: credentials first, then the committing OTP check with
      action "login", then the two tokens. */
  method HandleLogin(db: Db, body: Bound<LoginUser>, auth: AuthOracles, now: Time, expiryMinutes: int,
                     f: VerifyFaults)
    returns (resp: Response)
    requires db.Valid()
    modifies db`otps
    ensures db.Valid()
    ensures BindLogin(body).BindError? ==> resp == ResponseFor(BindLogin(body).error) && db.otps == old(db.otps)
    ensures BindLogin(body).Bound? ==>
      var p := body.value;
      var cred := auth.validateCredentials(UserRow(0, p.email, p.password, 0));
      (cred.Err? ==> resp == ResponseFor(cred.error) && db.otps == old(db.otps)) &&
      (cred.Ok? ==>
        var v := VerifySpec(old(db.otps), LoginOtp(p), true, now, Window(expiryMinutes), f);
        var jwt := auth.generateJwt(cred.value);
        var refresh := auth.generateRefreshJwt(cred.value);
        db.otps == v.rows &&
        (v.err.Some? ==> resp == ResponseFor(v.err.value)) &&
        (v.err.None? && jwt.Err? ==> resp == ResponseFor(jwt.error)) &&
        (v.err.None? && jwt.Ok? && refresh.Err? ==> resp == ResponseFor(refresh.error)) &&
        (v.err.None? && jwt.Ok? && refresh.Ok? ==>
          resp == Json(StatusOK, TokensBody(MsgLoggedIn, jwt.value, refresh.value))))
    ensures resp.Json? && resp.body.TokensBody? ==>
      |db.otps| == |old(db.otps)| &&
      exists i :: 0 <= i < |db.otps| && old(db.otps)[i].status == Pending && old(db.otps)[i].action == ActionLogin &&
        db.otps == old(db.otps)[i := old(db.otps)[i].(status := Success)]
  {
    var payload := BindLogin(body);
    if payload.BindError? {
      resp := WriteError(payload.error);
      return;
    }
    var p := payload.value;
    var user := UserRow(0, p.email, p.password, 0);
    var cred := auth.validateCredentials(user);
    if cred.Err? {
      resp := WriteError(cred.error);
      return;
    }
    user := cred.value;
    ghost var before := db.otps;
    var otpErr := VerifyWithUpdate(db, LoginOtp(p), now, expiryMinutes, f);
    if otpErr.Some? {
      resp := WriteError(otpErr.value);
      return;
    }
    CommitMarksOnlyTheMatchedRow(before, LoginOtp(p), now, Window(expiryMinutes), f);
    var jwt := auth.generateJwt(user);
    if jwt.Err? {
      resp := WriteError(jwt.error);
      return;
    }
    var refresh := auth.generateRefreshJwt(user);
    if refresh.Err? {
      resp := WriteError(refresh.error);
      return;
    }
    resp := Json(StatusOK, TokensBody(MsgLoggedIn, jwt.value, refresh.value));
  }

  /** `handleSignUp`: the dry-run OTP check with action "signup", then the
      save, then the commit, whose failure is only logged. Each step has
      its own clock reading. */
  method HandleSignUp(db: Db, body: Bound<SignUpUser>, hashPwd: string -> Result<string>,
                      nowVerify: Time, nowSave: Time, nowCommit: Time, expiryMinutes: int,
                      verifyFaults: VerifyFaults, saveFaults: SaveFaults, commitFaults: VerifyFaults)
    returns (resp: Response, mail: Option<UserRow>)
    requires db.Valid()
    modifies db`otps, db`users, db`nextUserId
    ensures db.Valid()
    ensures BindSignUp(body).BindError? ==>
      resp == ResponseFor(BindSignUp(body).error) && mail.None? &&
      db.otps == old(db.otps) && db.users == old(db.users) && db.nextUserId == old(db.nextUserId)
    ensures BindSignUp(body).Bound? ==>
      var p := body.value;
      var req := SignUpOtp(p);
      var v := VerifySpec(old(db.otps), req, false, nowVerify, Window(expiryMinutes), verifyFaults);
      var s := SaveSpec(old(db.users), old(db.nextUserId), UserRow(0, p.email, p.password, 0), hashPwd, nowSave,
                        saveFaults);
      var c := VerifySpec(old(db.otps), req, true, nowCommit, Window(expiryMinutes), commitFaults);
      (v.err.Some? ==>
        resp == ResponseFor(v.err.value) && mail.None? && db.otps == v.rows &&
        db.users == old(db.users) && db.nextUserId == old(db.nextUserId)) &&
      (v.err.None? && s.err.Some? ==>
        resp == ResponseFor(s.err.value) && mail.None? && db.otps == old(db.otps) &&
        db.users == old(db.users) && db.nextUserId == old(db.nextUserId)) &&
      (v.err.None? && s.err.None? ==>
        resp == Json(StatusCreated, MessageBody(MsgSignedUp)) && mail == Some(s.user) &&
        db.otps == c.rows && db.users == s.users && db.nextUserId == s.nextId)
    ensures db.users != old(db.users) ==>
      body.Bound? && Validator.StrongPassword(body.value.password) &&
      db.users == old(db.users) + [UserRow(old(db.nextUserId), body.value.email, hashPwd(body.value.password).value, nowSave)]
  {
    mail := None;
    var payload := BindSignUp(body);
    if payload.BindError? {
      resp := WriteError(payload.error);
      return;
    }
    var p := payload.value;
    var req := SignUpOtp(p);
    DryRunNeverCommits(db.otps, req, nowVerify, Window(expiryMinutes), verifyFaults);
    SaveOutcome(db.users, db.nextUserId, UserRow(0, p.email, p.password, 0), hashPwd, nowSave, saveFaults);
    var otpErr := Verify(db, req, nowVerify, expiryMinutes, verifyFaults);
    if otpErr.Some? {
      resp := WriteError(otpErr.value);
      return;
    }
    var user := new User(p.email, p.password);
    var saveErr := user.Save(db, hashPwd, nowSave, saveFaults);
    if saveErr.Some? {
      resp := WriteError(saveErr.value);
      return;
    }
    var _ := VerifyWithUpdate(db, req, nowCommit, expiryMinutes, commitFaults);
    mail := Some(user.Value());
    resp := Json(StatusCreated, MessageBody(MsgSignedUp));
  }

  /** `handleRefreshToken`: both tokens for the user id the refresh gate put
      in the context (0 when absent or not an `int64`). */
  function HandleRefreshToken(loggedInUser: CtxValue, header: string, auth: AuthOracles): (r: Response)
    ensures header == "" ==> r == ResponseFor(Plain(MsgTokenMissing))
    ensures r.Json? && r.status == StatusOK <==>
      header != "" &&
      auth.generateJwt(UserRow(GetInt64(loggedInUser), "", "", 0)).Ok? &&
      auth.generateRefreshJwt(UserRow(GetInt64(loggedInUser), "", "", 0)).Ok?
    ensures r.Json? && r.status == StatusOK ==>
      var u := UserRow(GetInt64(loggedInUser), "", "", 0);
      r.body == TokensBody(MsgTokenRefreshed, auth.generateJwt(u).value, auth.generateRefreshJwt(u).value)
  {
    if header == "" then ResponseFor(Plain(MsgTokenMissing))
    else
      var user := UserRow(GetInt64(loggedInUser), "", "", 0);
      match auth.generateJwt(user)
      case Err(e) => ResponseFor(e)
      case Ok(token) =>
        match auth.generateRefreshJwt(user)
        case Err(e) => ResponseFor(e)
        case Ok(refresh) => Json(StatusOK, TokensBody(MsgTokenRefreshed, token, refresh))
  }

  /** The refresh route end to end: when the refresh gate lets the request
      through, the handler issues the tokens for the user id carried by the
      validated refresh JWT. */
  lemma RefreshRouteIssuesForTokenUser(header: string, decrypt: string -> Result<string>,
                                       validateJwt: (string, AuthMiddleware.JwtType) -> Result<Int64>,
                                       lookup: string -> Result<AuthMiddleware.RefreshTokenRecord>, now: Time,
                                       auth: AuthOracles)
    requires AuthMiddleware.AuthenticateRefreshToken(header, decrypt, validateJwt, lookup, now).Continue?
    ensures var id := validateJwt(decrypt(header).value, AuthMiddleware.RefreshJwt).value;
      var u := UserRow(id, "", "", 0);
      var r := HandleRefreshToken(Int64Value(id), header, auth);
      (auth.generateJwt(u).Ok? && auth.generateRefreshJwt(u).Ok? ==>
        r == Json(StatusOK, TokensBody(MsgTokenRefreshed, auth.generateJwt(u).value, auth.generateRefreshJwt(u).value))) &&
      (auth.generateJwt(u).Err? ==> r == ResponseFor(auth.generateJwt(u).error))
  {
  }

  /** `handleVerifyCredentials`: the credential check alone. It takes no
      store, so it can neither read nor change an OTP. */
  function HandleVerifyCredentials(payload: Bound<UserCredentials>, auth: AuthOracles): (r: Response)
    ensures payload.BindError? ==> r == ResponseFor(payload.error)
    ensures payload.Bound? ==>
      var cred := auth.validateCredentials(UserRow(0, payload.value.email, payload.value.password, 0));
      (cred.Err? ==> r == ResponseFor(cred.error)) &&
      (cred.Ok? ==> r == Json(StatusOK, MessageBody(MsgCredentialsValid)))
  {
    if payload.BindError? then ResponseFor(payload.error)
    else
      match auth.validateCredentials(UserRow(0, payload.value.email, payload.value.password, 0))
      case Err(e) => ResponseFor(e)
      case Ok(_) => Json(StatusOK, MessageBody(MsgCredentialsValid))
  }
}

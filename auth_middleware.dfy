/** The two authentication gates (middleware/authenticate.go and
    middleware/authenticate-refresh-jwt.go). Each either aborts the request
    with 401 and a message, or lets it continue with the logged-in user id
    stored in the request context. Token decryption, JWT validation and the
    refresh-token store are function parameters. */
module AuthMiddleware {
  import opened Common
  import opened Http

  /** The JWT kinds `ValidateJWT` distinguishes in its two-argument form. */
  datatype JwtType = AccessJwt | RefreshJwt

  /** A stored refresh token: only its expiry instant is consulted. */
  datatype RefreshTokenRecord = RefreshTokenRecord(userId: Int64, token: string, expiresAt: Time)

  /** What a gate does with the request. */
  datatype Gate = Abort(status: int, message: string) | Continue(loggedInUser: Int64)

  const MsgUnauthorized := "Unauthorized !"
  const MsgRefreshExpired := "Refresh token has expired"

  function Unauthorized(reason: string): string {
    "Unauthorized - " + reason
  }

  /** `Authenticate`: the header value goes to the validator verbatim (no
      "Bearer " prefix is stripped). */
  function Authenticate(header: string, validateJwt: string -> Result<Int64>): (g: Gate)
    ensures g.Abort? ==> g.status == StatusUnauthorized
    ensures header == "" ==> g == Abort(StatusUnauthorized, MsgUnauthorized)
    ensures g.Continue? <==> header != "" && validateJwt(header).Ok?
    ensures g.Continue? ==> g.loggedInUser == validateJwt(header).value
    ensures header != "" && validateJwt(header).Err? ==>
      g.message == Unauthorized(validateJwt(header).error.Text())
  {
    if header == "" then Abort(StatusUnauthorized, MsgUnauthorized)
    else match validateJwt(header)
      case Err(e) => Abort(StatusUnauthorized, Unauthorized(e.Text()))
      case Ok(id) => Continue(id)
  }

  /** An empty header is refused without consulting the validator. */
  lemma EmptyHeaderNeverValidated(v1: string -> Result<Int64>, v2: string -> Result<Int64>)
    ensures Authenticate("", v1) == Authenticate("", v2)
  {
  }

  /** `AuthenticateRefreshToken`: decrypt the header, validate the decrypted
      JWT as a refresh token, look the record up by the raw header value, and
      refuse a record whose expiry lies strictly before now. */
  function AuthenticateRefreshToken(header: string, decrypt: string -> Result<string>,
                                    validateJwt: (string, JwtType) -> Result<Int64>,
                                    lookup: string -> Result<RefreshTokenRecord>, now: Time): (g: Gate)
    ensures g.Abort? ==> g.status == StatusUnauthorized
    ensures header == "" ==> g == Abort(StatusUnauthorized, MsgUnauthorized)
    ensures g.Continue? <==>
      header != "" && decrypt(header).Ok? &&
      validateJwt(decrypt(header).value, RefreshJwt).Ok? &&
      lookup(header).Ok? && now <= lookup(header).value.expiresAt
    ensures g.Continue? ==> g.loggedInUser == validateJwt(decrypt(header).value, RefreshJwt).value
  {
    if header == "" then Abort(StatusUnauthorized, MsgUnauthorized)
    else match decrypt(header)
      case Err(e) => Abort(StatusUnauthorized, Unauthorized(e.Text()))
      case Ok(decrypted) =>
        match validateJwt(decrypted, RefreshJwt)
        case Err(e) => Abort(StatusUnauthorized, Unauthorized(e.Text()))
        case Ok(id) =>
          match lookup(header)
          case Err(e) => Abort(StatusUnauthorized, Unauthorized(e.Text()))
          case Ok(record) =>
            if now > record.expiresAt then Abort(StatusUnauthorized, Unauthorized(MsgRefreshExpired))
            else Continue(id)
  }

  /** The checks run in order: a failed decryption is reported with its own
      text before the validator or the store is consulted, and a failed
      validation before the store is consulted. */
  lemma RefreshChecksInOrder(header: string, decrypt: string -> Result<string>,
                             v1: (string, JwtType) -> Result<Int64>, v2: (string, JwtType) -> Result<Int64>,
                             l1: string -> Result<RefreshTokenRecord>, l2: string -> Result<RefreshTokenRecord>,
                             now: Time)
    requires header != ""
    ensures decrypt(header).Err? ==>
      AuthenticateRefreshToken(header, decrypt, v1, l1, now) ==
        Abort(StatusUnauthorized, Unauthorized(decrypt(header).error.Text())) &&
      AuthenticateRefreshToken(header, decrypt, v1, l1, now) == AuthenticateRefreshToken(header, decrypt, v2, l2, now)
    ensures decrypt(header).Ok? && v1(decrypt(header).value, RefreshJwt) == v2(decrypt(header).value, RefreshJwt) &&
            v1(decrypt(header).value, RefreshJwt).Err? ==>
      AuthenticateRefreshToken(header, decrypt, v1, l1, now) == AuthenticateRefreshToken(header, decrypt, v2, l2, now)
  {
  }

  /** The store is asked for the raw header value, not the decrypted one:
      two lookups that agree on the header give the same outcome. */
  lemma RefreshLookupUsesRawHeader(header: string, decrypt: string -> Result<string>,
                                   validateJwt: (string, JwtType) -> Result<Int64>,
                                   l1: string -> Result<RefreshTokenRecord>, l2: string -> Result<RefreshTokenRecord>,
                                   now: Time)
    requires l1(header) == l2(header)
    ensures AuthenticateRefreshToken(header, decrypt, validateJwt, l1, now) ==
            AuthenticateRefreshToken(header, decrypt, validateJwt, l2, now)
  {
  }

  /** A record is still accepted at exactly its expiry instant and refused
      one nanosecond later. */
  lemma RefreshExpiryBoundary(header: string, decrypt: string -> Result<string>,
                              validateJwt: (string, JwtType) -> Result<Int64>,
                              lookup: string -> Result<RefreshTokenRecord>)
    requires header != "" && decrypt(header).Ok? && validateJwt(decrypt(header).value, RefreshJwt).Ok?
    requires lookup(header).Ok?
    ensures var at := lookup(header).value.expiresAt;
      AuthenticateRefreshToken(header, decrypt, validateJwt, lookup, at).Continue? &&
      AuthenticateRefreshToken(header, decrypt, validateJwt, lookup, at + 1) ==
        Abort(StatusUnauthorized, Unauthorized(MsgRefreshExpired))
  {
  }
}

/** The one-time-passcode engine (model/otp.go): code generation, the
    one-pending-OTP-per-(key, type, action) rule, verification with lazy
    expiry, and committing a verified OTP.

    The clock reading, the random number behind the code, the token the
    store assigns to a new row and the store's failures are parameters.
    Each store failure is an `Option<string>`: `None` when the statement
    succeeds, `Some(text)` with the driver's error text when it fails. */
module OtpModel {
  import opened Common
  import opened Schema
  import UserModel

  // ---------------------------------------------------------------------
  // Closed value sets

  const TypeEmail := "email"
  const TypePhone := "phone"
  const ActionLogin := "login"
  const ActionSignUp := "signup"
  const ActionResetPassword := "reset_password"

  datatype OtpType = EmailOtp | PhoneOtp {
    function Name(): string {
      match this
      case EmailOtp => TypeEmail
      case PhoneOtp => TypePhone
    }
  }

  datatype OtpAction = Login | SignUp | ResetPassword {
    function Name(): string {
      match this
      case Login => ActionLogin
      case SignUp => ActionSignUp
      case ResetPassword => ActionResetPassword
    }
  }

  function StatusName(s: OtpStatus): string {
    match s
    case Pending => "pending"
    case Success => "success"
    case Expire => "expire"
  }

  /** `OtpType.IsValid`. */
  predicate IsValidType(t: string) {
    t == TypeEmail || t == TypePhone
  }

  /** `OtpActionType.IsValid`. */
  predicate IsValidAction(a: string) {
    a == ActionLogin || a == ActionSignUp || a == ActionResetPassword
  }

  /** `OtpStatus.IsValid`. */
  predicate IsValidStatus(s: string) {
    s == "pending" || s == "success" || s == "expire"
  }

  /** The validity checks accept exactly the names of the closed sets, and
      distinct members have distinct names. */
  lemma ValidNamesAreExactlyTheMembers(s: string)
    ensures IsValidType(s) <==> exists t: OtpType :: t.Name() == s
    ensures IsValidAction(s) <==> exists a: OtpAction :: a.Name() == s
    ensures IsValidStatus(s) <==> exists st: OtpStatus :: StatusName(st) == s
    ensures forall t: OtpType, u: OtpType :: t.Name() == u.Name() ==> t == u
    ensures forall a: OtpAction, b: OtpAction :: a.Name() == b.Name() ==> a == b
    ensures forall st: OtpStatus, su: OtpStatus :: StatusName(st) == StatusName(su) ==> st == su
  {
    if s == TypeEmail { assert EmailOtp.Name() == s; }
    if s == TypePhone { assert PhoneOtp.Name() == s; }
    if s == ActionLogin { assert Login.Name() == s; }
    if s == ActionSignUp { assert SignUp.Name() == s; }
    if s == ActionResetPassword { assert ResetPassword.Name() == s; }
    if s == "pending" { assert StatusName(Pending) == s; }
    if s == "success" { assert StatusName(Success) == s; }
    if s == "expire" { assert StatusName(Expire) == s; }
  }

  // ---------------------------------------------------------------------
  // Code generation: `%06d` of a number below one million

  type OtpNumber = n: int | 0 <= n < 1_000_000

  function Pow10(w: nat): (p: nat)
    ensures p >= 1
  {
    if w == 0 then 1 else 10 * Pow10(w - 1)
  }

  /** The last `width` decimal digits of `n`, zero-padded on the left. */
  function PadDecimal(n: nat, width: nat): (s: string)
    ensures |s| == width
    ensures forall i :: 0 <= i < |s| ==> IsDigit(s[i])
  {
    if width == 0 then [] else PadDecimal(n / 10, width - 1) + [DigitChar(n % 10)]
  }

  /** A number below 10^width is written in full and reads back unchanged. */
  lemma {:induction false} PadDecimalValue(n: nat, width: nat)
    requires n < Pow10(width)
    ensures DecimalValue(PadDecimal(n, width)) == n
  {
    if width > 0 {
      var s := PadDecimal(n, width);
      assert s[..|s| - 1] == PadDecimal(n / 10, width - 1);
      PadDecimalValue(n / 10, width - 1);
    }
  }

  /** `fmt.Sprintf("%06d", n)`. */
  function FormatOtp(n: OtpNumber): string {
    PadDecimal(n, 6)
  }

  /** A generated code is exactly six decimal digits, leading zeros kept,
      and reads back as the number it was made from; so distinct numbers
      give distinct codes. */
  lemma FormatOtpRoundTrip(n: OtpNumber, m: OtpNumber)
    ensures |FormatOtp(n)| == 6
    ensures forall i :: 0 <= i < 6 ==> IsDigit(FormatOtp(n)[i])
    ensures DecimalValue(FormatOtp(n)) == n
    ensures FormatOtp(n) == FormatOtp(m) ==> n == m
  {
    assert Pow10(6) == 1_000_000;
    PadDecimalValue(n, 6);
    PadDecimalValue(m, 6);
  }

  // ---------------------------------------------------------------------
  // Error texts

  const MsgInvalidOtpDetails := "Invalid OTP details !"
  const MsgInvalidOtpToken := "Invalid OTP token"
  const MsgInvalidOtpCode := "Invalid OTP code"
  const MsgOtpExpired := "OTP has expired. Please request a new one."

  function MsgNoUser(key: string): string {
    "No user found with email " + key
  }

  /** The configured time format is not part of this model; the instant is
      rendered as its nanosecond count. */
  function MsgAlreadySent(at: Time): string {
    "OTP already sent recently at " + IntToDecimal(at) + ". Please wait before requesting a new one."
  }

  /** The expiry window: `time.Minute * ExpiryMinutes`. */
  function Window(expiryMinutes: int): int {
    Minute * expiryMinutes
  }

  // ---------------------------------------------------------------------
  // Table statements

  /** `UPDATE otp SET status=$1 WHERE id=$2`. */
  function SetStatus(rows: seq<OtpRow>, id: int, s: OtpStatus): (r: seq<OtpRow>)
    ensures |r| == |rows|
    ensures forall i :: 0 <= i < |rows| ==> r[i] == if rows[i].id == id then rows[i].(status := s) else rows[i]
  {
    seq(|rows|, i requires 0 <= i < |rows| => if rows[i].id == id then rows[i].(status := s) else rows[i])
  }

  /** With distinct ids, the update touches exactly the row with that id. */
  lemma SetStatusAt(rows: seq<OtpRow>, i: nat, s: OtpStatus)
    requires i < |rows|
    requires DistinctIds(rows)
    ensures SetStatus(rows, rows[i].id, s) == rows[i := rows[i].(status := s)]
  {
    var r := SetStatus(rows, rows[i].id, s);
    forall j | 0 <= j < |rows| ensures r[j] == rows[i := rows[i].(status := s)][j] {
      if j < i { assert rows[j].id != rows[i].id; }
      if j > i { assert rows[i].id != rows[j].id; }
    }
  }

  predicate DistinctIds(rows: seq<OtpRow>) {
    forall a, b :: 0 <= a < b < |rows| ==> rows[a].id != rows[b].id
  }

  predicate IsPendingFor(row: OtpRow, token: string, action: string) {
    row.token == token && row.action == action && row.status == Pending
  }

  /** The row `SELECT ... WHERE token=$1 AND action=$2 AND status='pending'`
      yields: the first such row in table order. */
  function FindPending(rows: seq<OtpRow>, token: string, action: string): (r: Option<nat>)
    ensures r.Some? ==> r.value < |rows| && IsPendingFor(rows[r.value], token, action)
    ensures r.Some? ==> forall j :: 0 <= j < r.value ==> !IsPendingFor(rows[j], token, action)
    ensures r.None? ==> forall j :: 0 <= j < |rows| ==> !IsPendingFor(rows[j], token, action)
  {
    if rows == [] then None
    else if IsPendingFor(rows[0], token, action) then Some(0)
    else match FindPending(rows[1..], token, action)
      case None => None
      case Some(k) => Some(k + 1)
  }

  predicate IsPendingOf(row: OtpRow, key: string, otpType: string, action: string) {
    row.key == key && row.otpType == otpType && row.action == action && row.status == Pending
  }

  /** The first row of `SELECT ... WHERE key, type, action match AND
      status='pending' ORDER BY created_at DESC`: a newest pending row of
      the tuple (the earliest in table order among equally new ones). */
  function NewestPending(rows: seq<OtpRow>, key: string, otpType: string, action: string): (r: Option<nat>)
    ensures r.Some? ==> r.value < |rows| && IsPendingOf(rows[r.value], key, otpType, action)
    ensures r.Some? ==> forall j :: 0 <= j < |rows| && IsPendingOf(rows[j], key, otpType, action) ==>
      rows[j].createdAt <= rows[r.value].createdAt
    ensures r.None? ==> forall j :: 0 <= j < |rows| ==> !IsPendingOf(rows[j], key, otpType, action)
  {
    if rows == [] then None
    else
      var rest := NewestPending(rows[1..], key, otpType, action);
      if IsPendingOf(rows[0], key, otpType, action) then
        if rest.Some? && rows[rest.value + 1].createdAt > rows[0].createdAt then Some(rest.value + 1) else Some(0)
      else if rest.Some? then Some(rest.value + 1)
      else None
  }

  // ---------------------------------------------------------------------
  // Verification

  /** The verification request: opaque token, submitted code, action. */
  datatype VerifyOtp = VerifyOtp(token: string, otp: string, action: string)

  /** Failures of the lookup, of the expiry write and of the commit write. */
  datatype VerifyFaults = VerifyFaults(lookup: Option<string>, expireWrite: Option<string>, commitWrite: Option<string>)

  /** The OTP table after a verification, and its error. */
  datatype Verified = Verified(rows: seq<OtpRow>, err: Option<Error>)

  /** `verifyInternal(commit)` over the table's value: look the pending row
      up, compare the code, expire a stale row, and, when committing, mark
      the row `success`. */
  function VerifySpec(rows: seq<OtpRow>, req: VerifyOtp, commit: bool, now: Time, window: int,
                      f: VerifyFaults): Verified
  {
    if f.lookup.Some? then Verified(rows, Some(Plain(f.lookup.value)))
    else match FindPending(rows, req.token, req.action)
      case None => Verified(rows, Some(Plain(MsgInvalidOtpDetails)))
      case Some(i) =>
        var row := rows[i];
        if row.id == 0 then Verified(rows, Some(Plain(MsgInvalidOtpToken)))
        else if row.code != req.otp then Verified(rows, Some(Plain(MsgInvalidOtpCode)))
        else if now - row.createdAt > window then
          Verified(if f.expireWrite.None? then SetStatus(rows, row.id, Expire) else rows, Some(Plain(MsgOtpExpired)))
        else if !commit then Verified(rows, None)
        else if f.commitWrite.Some? then Verified(rows, Some(Plain(f.commitWrite.value)))
        else Verified(SetStatus(rows, row.id, Success), None)
  }

  /** Only a pending row with the request's token and action is considered:
      without one the call fails with "Invalid OTP details !" and changes
      nothing. */
  lemma VerifyWithoutPendingRow(rows: seq<OtpRow>, req: VerifyOtp, commit: bool, now: Time, window: int,
                                f: VerifyFaults)
    requires f.lookup.None?
    requires forall j :: 0 <= j < |rows| ==> !IsPendingFor(rows[j], req.token, req.action)
    ensures VerifySpec(rows, req, commit, now, window, f) == Verified(rows, Some(Plain(MsgInvalidOtpDetails)))
  {
  }

  /** A wrong code fails with "Invalid OTP code" and changes nothing, however
      old the row: the code is compared before the age. */
  lemma WrongCodeChangesNothing(rows: seq<OtpRow>, req: VerifyOtp, commit: bool, now: Time, window: int,
                                f: VerifyFaults, i: nat)
    requires f.lookup.None?
    requires FindPending(rows, req.token, req.action) == Some(i)
    requires rows[i].id != 0 && rows[i].code != req.otp
    ensures VerifySpec(rows, req, commit, now, window, f) == Verified(rows, Some(Plain(MsgInvalidOtpCode)))
  {
  }

  /** A correct code on a row older than the window expires that row, on the
      dry run as well as the commit, and fails with the expiry error; when
      the expiry write fails the table is left as it was and the same
      error is returned. */
  lemma CorrectCodeTooLateExpires(rows: seq<OtpRow>, req: VerifyOtp, commit: bool, now: Time, window: int,
                                  f: VerifyFaults, i: nat)
    requires DistinctIds(rows)
    requires f.lookup.None?
    requires FindPending(rows, req.token, req.action) == Some(i)
    requires rows[i].id != 0 && rows[i].code == req.otp && now - rows[i].createdAt > window
    ensures VerifySpec(rows, req, commit, now, window, f).err == Some(Plain(MsgOtpExpired))
    ensures f.expireWrite.None? ==>
      VerifySpec(rows, req, commit, now, window, f).rows == rows[i := rows[i].(status := Expire)]
    ensures f.expireWrite.Some? ==> VerifySpec(rows, req, commit, now, window, f).rows == rows
  {
    SetStatusAt(rows, i, Expire);
  }

  /** The dry run never marks a row `success`: each row stays as it was or,
      from pending, becomes `expire`. While the row is fresh and the code
      right it changes nothing at all, so it can be repeated. */
  lemma DryRunNeverCommits(rows: seq<OtpRow>, req: VerifyOtp, now: Time, window: int, f: VerifyFaults)
    requires DistinctIds(rows)
    ensures var v := VerifySpec(rows, req, false, now, window, f);
      |v.rows| == |rows| &&
      forall j :: 0 <= j < |rows| ==>
        v.rows[j] == rows[j] || (rows[j].status == Pending && v.rows[j] == rows[j].(status := Expire))
    ensures VerifySpec(rows, req, false, now, window, f).err.None? ==>
      VerifySpec(rows, req, false, now, window, f).rows == rows
  {
    var found := FindPending(rows, req.token, req.action);
    if f.lookup.None? && found.Some? {
      SetStatusAt(rows, found.value, Expire);
    }
  }

  /** A successful commit marks exactly the matched row `success` and
      leaves every other row as it was. */
  lemma CommitMarksOnlyTheMatchedRow(rows: seq<OtpRow>, req: VerifyOtp, now: Time, window: int, f: VerifyFaults)
    requires DistinctIds(rows)
    requires VerifySpec(rows, req, true, now, window, f).err.None?
    ensures FindPending(rows, req.token, req.action).Some?
    ensures var i := FindPending(rows, req.token, req.action).value;
      rows[i].code == req.otp && now - rows[i].createdAt <= window &&
      VerifySpec(rows, req, true, now, window, f).rows == rows[i := rows[i].(status := Success)]
  {
    var found := FindPending(rows, req.token, req.action);
    assert f.lookup.None? && found.Some?;
    var i := found.value;
    var row := rows[i];
    assert row.id != 0 && row.code == req.otp && now - row.createdAt <= window;
    assert f.commitWrite.None?;
    assert VerifySpec(rows, req, true, now, window, f).rows == SetStatus(rows, row.id, Success);
    SetStatusAt(rows, i, Success);
  }

  predicate DistinctTokens(rows: seq<OtpRow>) {
    forall a, b :: 0 <= a < b < |rows| ==> rows[a].token != rows[b].token
  }

  /** After a successful commit the same token cannot be committed again:
      the row is no longer pending, so the lookup finds nothing. */
  lemma SecondCommitFails(rows: seq<OtpRow>, req: VerifyOtp, now: Time, window: int, f: VerifyFaults,
                          now2: Time, f2: VerifyFaults)
    requires DistinctIds(rows)
    requires DistinctTokens(rows)
    requires VerifySpec(rows, req, true, now, window, f).err.None?
    requires f2.lookup.None?
    ensures var after := VerifySpec(rows, req, true, now, window, f).rows;
      VerifySpec(after, req, true, now2, window, f2) == Verified(after, Some(Plain(MsgInvalidOtpDetails)))
  {
    CommitMarksOnlyTheMatchedRow(rows, req, now, window, f);
    var i := FindPending(rows, req.token, req.action).value;
    var after := VerifySpec(rows, req, true, now, window, f).rows;
    forall j | 0 <= j < |after| ensures !IsPendingFor(after[j], req.token, req.action) {
      if j != i {
        assert after[j] == rows[j];
        if j < i { assert rows[j].token != rows[i].token; } else { assert rows[i].token != rows[j].token; }
      }
    }
  }

  /** Expiring or committing rows never breaks the table invariant. */
  lemma SetStatusKeepsTableOk(rows: seq<OtpRow>, next: int, id: int, s: OtpStatus)
    requires OtpTableOk(rows, next)
    requires s != Pending
    ensures OtpTableOk(SetStatus(rows, id, s), next)
  {
    var r := SetStatus(rows, id, s);
    forall a, b | 0 <= a < b < |r| && r[a].status == Pending && r[b].status == Pending
      ensures !SameTuple(r[a], r[b])
    {
      assert r[a] == rows[a] && r[b] == rows[b];
    }
  }

  lemma VerifyKeepsTableOk(rows: seq<OtpRow>, next: int, req: VerifyOtp, commit: bool, now: Time, window: int,
                           f: VerifyFaults)
    requires OtpTableOk(rows, next)
    ensures OtpTableOk(VerifySpec(rows, req, commit, now, window, f).rows, next)
  {
    if f.lookup.None? && FindPending(rows, req.token, req.action).Some? {
      var row := rows[FindPending(rows, req.token, req.action).value];
      SetStatusKeepsTableOk(rows, next, row.id, Expire);
      SetStatusKeepsTableOk(rows, next, row.id, Success);
    }
  }

  // ---------------------------------------------------------------------
  // Generation

  /** Failures of the user lookup, the pending-row query, the expiry write
      and the insert. */
  datatype GenerateFaults = GenerateFaults(
    userLookup: Option<string>,
    pendingQuery: Option<string>,
    expireWrite: Option<string>,
    insert: Option<string>)

  /** The e-mail login check: an e-mail OTP for login needs a user with
      that e-mail (a failed lookup, or a found row with id 0, refuses). */
  function LoginUserCheck(users: seq<UserRow>, otp: OtpRow, fault: Option<string>): (e: Option<Error>)
    ensures !(otp.action == ActionLogin && otp.otpType == TypeEmail) ==> e.None?
    ensures otp.action == ActionLogin && otp.otpType == TypeEmail ==>
      (e.None? <==> fault.None? && UserModel.FindByEmail(users, otp.key).Some? &&
                    users[UserModel.FindByEmail(users, otp.key).value].id != 0)
  {
    if otp.action == ActionLogin && otp.otpType == TypeEmail then
      var (user, lookupErr) := UserModel.GetUserByEmail(users, otp.key, fault);
      if lookupErr.Some? then lookupErr
      else if user.id == 0 then Some(Plain(MsgNoUser(otp.key)))
      else None
    else None
  }

  /** `checkExistingOtp` over the table's value: refuse while the newest
      pending row of the tuple is younger than the window, else expire it. */
  function CheckExisting(rows: seq<OtpRow>, otp: OtpRow, now: Time, window: int, f: GenerateFaults): Verified
  {
    if f.pendingQuery.Some? then Verified(rows, Some(Plain(f.pendingQuery.value)))
    else match NewestPending(rows, otp.key, otp.otpType, otp.action)
      case None => Verified(rows, None)
      case Some(i) =>
        if now - rows[i].createdAt < window then Verified(rows, Some(Plain(MsgAlreadySent(rows[i].createdAt))))
        else if f.expireWrite.Some? then Verified(rows, Some(Plain(f.expireWrite.value)))
        else Verified(SetStatus(rows, rows[i].id, Expire), None)
  }

  /** The OTP table, identity counter and receiver after `Generate`, and its error. */
  datatype Generated = Generated(rows: seq<OtpRow>, nextId: int, otp: OtpRow, err: Option<Error>)

  /** The row `Generate` inserts. */
  function NewRow(id: int, otp: OtpRow, token: string): OtpRow {
    OtpRow(id, otp.key, otp.otpType, otp.action, otp.code, token, otp.createdAt, Pending)
  }

  /** `Otp.Generate` over the table's value. `n` is the random number, `token`
      the value the store assigns to the new row's token column. */
  function GenerateSpec(rows: seq<OtpRow>, nextId: int, users: seq<UserRow>, otp: OtpRow, n: OtpNumber,
                        now: Time, window: int, token: string, f: GenerateFaults): Generated
  {
    var userErr := LoginUserCheck(users, otp, f.userLookup);
    if userErr.Some? then Generated(rows, nextId, otp, userErr)
    else
      var o := otp.(code := FormatOtp(n), createdAt := now);
      var c := CheckExisting(rows, o, now, window, f);
      if c.err.Some? then Generated(c.rows, nextId, o, c.err)
      else if f.insert.Some? then Generated(c.rows, nextId, o, Some(Plain(f.insert.value)))
      else Generated(c.rows + [NewRow(nextId, o, token)], nextId + 1, o.(id := nextId, token := token), None)
  }

  /** An e-mail login OTP for an unknown user fails and inserts nothing. */
  lemma LoginOtpNeedsUser(rows: seq<OtpRow>, nextId: int, users: seq<UserRow>, otp: OtpRow, n: OtpNumber,
                          now: Time, window: int, token: string, f: GenerateFaults)
    requires otp.action == ActionLogin && otp.otpType == TypeEmail
    requires f.userLookup.Some? || UserModel.FindByEmail(users, otp.key).None? ||
             users[UserModel.FindByEmail(users, otp.key).value].id == 0
    ensures var g := GenerateSpec(rows, nextId, users, otp, n, now, window, token, f);
      g.err.Some? && g.rows == rows && g.nextId == nextId
  {
  }

  /** While the newest pending row of the tuple is younger than the window,
      generation fails and inserts nothing. */
  lemma GenerateRefusesRecent(rows: seq<OtpRow>, nextId: int, users: seq<UserRow>, otp: OtpRow, n: OtpNumber,
                              now: Time, window: int, token: string, f: GenerateFaults, i: nat)
    requires LoginUserCheck(users, otp, f.userLookup).None? && f.pendingQuery.None?
    requires NewestPending(rows, otp.key, otp.otpType, otp.action) == Some(i)
    requires now - rows[i].createdAt < window
    ensures GenerateSpec(rows, nextId, users, otp, n, now, window, token, f) ==
      Generated(rows, nextId, otp.(code := FormatOtp(n), createdAt := now), Some(Plain(MsgAlreadySent(rows[i].createdAt))))
  {
  }

  /** Once the newest pending row is at least the window old, generation
      expires exactly that row and appends one pending row carrying the
      fresh code, the creation time and the store's token. */
  lemma GenerateReplacesStale(rows: seq<OtpRow>, nextId: int, users: seq<UserRow>, otp: OtpRow, n: OtpNumber,
                              now: Time, window: int, token: string, f: GenerateFaults, i: nat)
    requires DistinctIds(rows)
    requires LoginUserCheck(users, otp, f.userLookup).None?
    requires f.pendingQuery.None? && f.expireWrite.None? && f.insert.None?
    requires NewestPending(rows, otp.key, otp.otpType, otp.action) == Some(i)
    requires now - rows[i].createdAt >= window
    ensures var g := GenerateSpec(rows, nextId, users, otp, n, now, window, token, f);
      g.err.None? &&
      g.rows == rows[i := rows[i].(status := Expire)] +
        [OtpRow(nextId, otp.key, otp.otpType, otp.action, FormatOtp(n), token, now, Pending)] &&
      g.otp == otp.(id := nextId, code := FormatOtp(n), token := token, createdAt := now) &&
      g.nextId == nextId + 1
  {
    SetStatusAt(rows, i, Expire);
  }

  /** Generation keeps identities unique and at most one pending row per
      (key, type, action). */
  lemma {:induction false} GenerateKeepsTableOk(rows: seq<OtpRow>, nextId: int, users: seq<UserRow>, otp: OtpRow,
                                                n: OtpNumber, now: Time, window: int, token: string, f: GenerateFaults)
    requires OtpTableOk(rows, nextId)
    ensures var g := GenerateSpec(rows, nextId, users, otp, n, now, window, token, f);
      OtpTableOk(g.rows, g.nextId)
  {
    var g := GenerateSpec(rows, nextId, users, otp, n, now, window, token, f);
    if LoginUserCheck(users, otp, f.userLookup).None? {
      var o := otp.(code := FormatOtp(n), createdAt := now);
      var c := CheckExisting(rows, o, now, window, f);
      var newest := NewestPending(rows, o.key, o.otpType, o.action);
      if newest.Some? {
        SetStatusKeepsTableOk(rows, nextId, rows[newest.value].id, Expire);
      }
      assert OtpTableOk(c.rows, nextId);
      if c.err.None? && f.insert.None? {
        // No pending row of the tuple is left before the insert.
        if newest.Some? {
          SetStatusAt(rows, newest.value, Expire);
          OnlyPendingOfTuple(rows, newest.value);
        }
        AppendPendingKeepsTableOk(c.rows, nextId, NewRow(nextId, o, token));
      }
    }
  }

  /** Under the invariant, a pending row is the only pending row of its tuple. */
  lemma OnlyPendingOfTuple(rows: seq<OtpRow>, i: nat)
    requires AtMostOnePending(rows)
    requires i < |rows| && rows[i].status == Pending
    ensures forall j :: 0 <= j < |rows| && j != i ==> !IsPendingOf(rows[j], rows[i].key, rows[i].otpType, rows[i].action)
  {
    forall j | 0 <= j < |rows| && j != i
      ensures !IsPendingOf(rows[j], rows[i].key, rows[i].otpType, rows[i].action)
    {
      if j < i {
        assert rows[j].status == Pending ==> !SameTuple(rows[j], rows[i]);
      } else {
        assert rows[j].status == Pending ==> !SameTuple(rows[i], rows[j]);
      }
    }
  }

  lemma AppendPendingKeepsTableOk(rows: seq<OtpRow>, nextId: int, row: OtpRow)
    requires OtpTableOk(rows, nextId)
    requires row.id == nextId
    requires forall j :: 0 <= j < |rows| ==> !IsPendingOf(rows[j], row.key, row.otpType, row.action)
    ensures OtpTableOk(rows + [row], nextId + 1)
  {
    var r := rows + [row];
    forall a, b | 0 <= a < b < |r| && r[a].status == Pending && r[b].status == Pending
      ensures !SameTuple(r[a], r[b])
    {
      if b == |rows| {
        assert r[a] == rows[a];
        assert !IsPendingOf(rows[a], row.key, row.otpType, row.action);
      }
    }
  }

  /** A successful generation leaves the new row as the one pending row of
      its tuple: it carries the six-digit code, the request time and the
      store's token, and the receiver mirrors it. */
  lemma GenerateSuccess(rows: seq<OtpRow>, nextId: int, users: seq<UserRow>, otp: OtpRow, n: OtpNumber,
                        now: Time, window: int, token: string, f: GenerateFaults)
    requires OtpTableOk(rows, nextId)
    requires GenerateSpec(rows, nextId, users, otp, n, now, window, token, f).err.None?
    ensures var g := GenerateSpec(rows, nextId, users, otp, n, now, window, token, f);
      |g.rows| == |rows| + 1 && g.nextId == nextId + 1 &&
      g.otp == otp.(id := nextId, code := FormatOtp(n), token := token, createdAt := now) &&
      g.rows[|rows|] == g.otp.(status := Pending) &&
      forall j :: 0 <= j < |rows| ==> !IsPendingOf(g.rows[j], otp.key, otp.otpType, otp.action)
  {
    var g := GenerateSpec(rows, nextId, users, otp, n, now, window, token, f);
    GenerateKeepsTableOk(rows, nextId, users, otp, n, now, window, token, f);
    OnlyPendingOfTuple(g.rows, |rows|);
  }

  /** Two requests for the same tuple inside the window: the second fails
      and leaves the table as the first one left it. */
  lemma SecondGenerateWithinWindowFails(rows: seq<OtpRow>, nextId: int, users: seq<UserRow>, otp: OtpRow,
                                        n: OtpNumber, now: Time, window: int, token: string, f: GenerateFaults,
                                        otp2: OtpRow, n2: OtpNumber, now2: Time, token2: string, f2: GenerateFaults)
    requires OtpTableOk(rows, nextId)
    requires GenerateSpec(rows, nextId, users, otp, n, now, window, token, f).err.None?
    requires SameTuple(otp, otp2)
    requires now2 - now < window
    ensures var g := GenerateSpec(rows, nextId, users, otp, n, now, window, token, f);
      var g2 := GenerateSpec(g.rows, g.nextId, users, otp2, n2, now2, window, token2, f2);
      g2.err.Some? && g2.rows == g.rows && g2.nextId == g.nextId
  {
    var g := GenerateSpec(rows, nextId, users, otp, n, now, window, token, f);
    GenerateKeepsTableOk(rows, nextId, users, otp, n, now, window, token, f);
    var last := |g.rows| - 1;
    assert IsPendingOf(g.rows[last], otp2.key, otp2.otpType, otp2.action);
    OnlyPendingOfTuple(g.rows, last);
  }

  /** The boundary asymmetry, first half: a row exactly the window old
      still passes verification (the expiry test is a strict `>`). */
  lemma WindowBoundaryStillVerifies(rows: seq<OtpRow>, i: nat, window: int)
    requires i < |rows| && rows[i].id != 0
    requires FindPending(rows, rows[i].token, rows[i].action) == Some(i)
    ensures var now := rows[i].createdAt + window;
      var req := VerifyOtp(rows[i].token, rows[i].code, rows[i].action);
      VerifySpec(rows, req, false, now, window, VerifyFaults(None, None, None)) == Verified(rows, None)
  {
  }

  /** The boundary asymmetry, second half: at that same instant a new
      request for the row's tuple treats it as stale (the refusal test is a
      strict `<`), expires it and issues a new OTP. */
  lemma WindowBoundaryAlreadyStale(rows: seq<OtpRow>, nextId: int, users: seq<UserRow>, i: nat, n: OtpNumber,
                                   window: int, token: string)
    requires OtpTableOk(rows, nextId)
    requires i < |rows| && rows[i].status == Pending
    requires LoginUserCheck(users, rows[i], None).None?
    ensures var now := rows[i].createdAt + window;
      GenerateSpec(rows, nextId, users, rows[i], n, now, window, token, GenerateFaults(None, None, None, None)).rows ==
        rows[i := rows[i].(status := Expire)] +
        [OtpRow(nextId, rows[i].key, rows[i].otpType, rows[i].action, FormatOtp(n), token, rows[i].createdAt + window, Pending)]
  {
    OnlyPendingOfTuple(rows, i);
    assert IsPendingOf(rows[i], rows[i].key, rows[i].otpType, rows[i].action);
    assert NewestPending(rows, rows[i].key, rows[i].otpType, rows[i].action) == Some(i);
    GenerateReplacesStale(rows, nextId, users, rows[i], n, rows[i].createdAt + window, window, token,
                          GenerateFaults(None, None, None, None), i);
  }

  // ---------------------------------------------------------------------
  // The receiver and the imperative operations

  /** The `Otp` receiver: `Generate` fills in its code, creation time, id
      and token; `UpdateStatus` its status. */
  class Otp {
    var id: int
    var key: string
    var otpType: string
    var action: string
    var code: string
    var token: string
    var createdAt: Time
    var status: OtpStatus

    function Value(): OtpRow
      reads this
    {
      OtpRow(id, key, otpType, action, code, token, createdAt, status)
    }

    constructor (r: OtpRow)
      ensures Value() == r
    {
      id, key, otpType, action := r.id, r.key, r.otpType, r.action;
      code, token, createdAt, status := r.code, r.token, r.createdAt, r.status;
    }

    /** `UPDATE otp SET status=$1 WHERE id=$2`, then the receiver's status. */
    method UpdateStatus(db: Db, s: OtpStatus, fault: Option<string>) returns (err: Option<Error>)
      modifies this`status, db`otps
      ensures fault.Some? ==> err == Some(Plain(fault.value)) && db.otps == old(db.otps) && status == old(status)
      ensures fault.None? ==> err.None? && db.otps == SetStatus(old(db.otps), id, s) && status == s
    {
      if fault.Some? {
        return Some(Plain(fault.value));
      }
      db.otps := SetStatus(db.otps, id, s);
      status := s;
      err := None;
    }

    /** `generateOtp`: the six-digit code and the creation time. */
    method GenerateOtp(n: OtpNumber, now: Time) returns (code': string)
      modifies this`code, this`createdAt
      ensures code' == FormatOtp(n) && code == code' && createdAt == now
    {
      code' := FormatOtp(n);
      code := code';
      createdAt := now;
    }

    method CheckExistingOtp(db: Db, now: Time, window: int, f: GenerateFaults) returns (err: Option<Error>)
      requires OtpTableOk(db.otps, db.nextOtpId)
      modifies db`otps
      ensures var c := CheckExisting(old(db.otps), Value(), now, window, f);
        db.otps == c.rows && err == c.err
    {
      if f.pendingQuery.Some? {
        return Some(Plain(f.pendingQuery.value));
      }
      var newest := NewestPending(db.otps, key, otpType, action);
      if newest.Some? {
        var existing := db.otps[newest.value];
        if now - existing.createdAt < window {
          return Some(Plain(MsgAlreadySent(existing.createdAt)));
        }
        if f.expireWrite.Some? {
          return Some(Plain(f.expireWrite.value));
        }
        db.otps := SetStatus(db.otps, existing.id, Expire);
      }
      err := None;
    }

    method Generate(db: Db, n: OtpNumber, now: Time, expiryMinutes: int, token: string, f: GenerateFaults)
      returns (err: Option<Error>)
      requires db.Valid()
      modifies this, db`otps, db`nextOtpId
      ensures db.Valid()
      ensures var g := GenerateSpec(old(db.otps), old(db.nextOtpId), db.users, old(Value()), n, now,
                                    Window(expiryMinutes), token, f);
        db.otps == g.rows && db.nextOtpId == g.nextId && Value() == g.otp && err == g.err
    {
      GenerateKeepsTableOk(db.otps, db.nextOtpId, db.users, Value(), n, now, Window(expiryMinutes), token, f);
      if action == ActionLogin && otpType == TypeEmail {
        var (user, lookupErr) := UserModel.GetUserByEmail(db.users, key, f.userLookup);
        if lookupErr.Some? {
          return lookupErr;
        }
        if user.id == 0 {
          return Some(Plain(MsgNoUser(key)));
        }
      }
      var _ := GenerateOtp(n, now);
      err := CheckExistingOtp(db, now, Window(expiryMinutes), f);
      if err.Some? {
        return;
      }
      if f.insert.Some? {
        return Some(Plain(f.insert.value));
      }
      db.otps := db.otps + [NewRow(db.nextOtpId, Value(), token)];
      id, this.token := db.nextOtpId, token;
      db.nextOtpId := db.nextOtpId + 1;
    }
  }

  /** `verifyInternal`. */
  method VerifyInternal(db: Db, req: VerifyOtp, performUpdate: bool, now: Time, expiryMinutes: int, f: VerifyFaults)
    returns (err: Option<Error>)
    requires db.Valid()
    modifies db`otps
    ensures db.Valid()
    ensures var v := VerifySpec(old(db.otps), req, performUpdate, now, Window(expiryMinutes), f);
      db.otps == v.rows && err == v.err
  {
    VerifyKeepsTableOk(db.otps, db.nextOtpId, req, performUpdate, now, Window(expiryMinutes), f);
    if f.lookup.Some? {
      return Some(Plain(f.lookup.value));
    }
    var found := FindPending(db.otps, req.token, req.action);
    if found.None? {
      return Some(Plain(MsgInvalidOtpDetails));
    }
    var row := db.otps[found.value];
    if row.id == 0 {
      return Some(Plain(MsgInvalidOtpToken));
    }
    if row.code != req.otp {
      return Some(Plain(MsgInvalidOtpCode));
    }
    if now - row.createdAt > Window(expiryMinutes) {
      if f.expireWrite.None? {
        db.otps := SetStatus(db.otps, row.id, Expire);
      }
      return Some(Plain(MsgOtpExpired));
    }
    if performUpdate {
      var otp := new Otp(row);
      err := otp.UpdateStatus(db, Success, f.commitWrite);
      if err.Some? {
        return;
      }
    }
    err := None;
  }

  /** The dry run: `verifyInternal(false)`. */
  method Verify(db: Db, req: VerifyOtp, now: Time, expiryMinutes: int, f: VerifyFaults) returns (err: Option<Error>)
    requires db.Valid()
    modifies db`otps
    ensures db.Valid()
    ensures var v := VerifySpec(old(db.otps), req, false, now, Window(expiryMinutes), f);
      db.otps == v.rows && err == v.err
  {
    err := VerifyInternal(db, req, false, now, expiryMinutes, f);
  }

  /** The committing variant: `verifyInternal(true)`. */
  method VerifyWithUpdate(db: Db, req: VerifyOtp, now: Time, expiryMinutes: int, f: VerifyFaults)
    returns (err: Option<Error>)
    requires db.Valid()
    modifies db`otps
    ensures db.Valid()
    ensures var v := VerifySpec(old(db.otps), req, true, now, Window(expiryMinutes), f);
      db.otps == v.rows && err == v.err
  {
    err := VerifyInternal(db, req, true, now, expiryMinutes, f);
  }
}

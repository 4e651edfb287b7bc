/** The relational store, kept in memory: one sequence of rows per table and
    one identity counter per table (`BIGINT GENERATED ALWAYS AS IDENTITY`).
    Row order is insertion order. */
module Schema {
  import opened Common

  /** Closed set of statuses an OTP row can hold. */
  datatype OtpStatus = Pending | Success | Expire

  /** A row of the `otp` table; it is also the shape of the `Otp` struct. */
  datatype OtpRow = OtpRow(
    id: int,
    key: string,
    otpType: string,
    action: string,
    code: string,
    token: string,
    createdAt: Time,
    status: OtpStatus)

  /** A row of the `users` table; also the shape of the `User` struct. */
  datatype UserRow = UserRow(id: int, email: string, password: string, createdAt: Time)

  /** Closed set of statuses a short URL can hold. */
  datatype UrlStatus = Active | Inactive | Deleted | Expired

  /** A row of the `url` table. `expiryAt` is nullable in the table. */
  datatype UrlRow = UrlRow(
    id: int,
    userId: int,
    url: string,
    code: string,
    status: UrlStatus,
    createdAt: Time,
    clickCount: int,
    expiryAt: Option<Time>)

  /** The `Url` struct. Unlike the row, its expiry is never null: the zero
      time stands for "no expiry". */
  datatype UrlRec = UrlRec(
    id: int,
    userId: int,
    url: string,
    code: string,
    status: UrlStatus,
    createdAt: Time,
    clickCount: int,
    expiryAt: Time)

  /** A listed URL together with its public short link. */
  datatype UrlWithShortCode = UrlWithShortCode(url: UrlRec, shortUrl: string)

  /** A row of the `analytics` table. */
  datatype AnalyticsRow = AnalyticsRow(
    id: int,
    urlId: int,
    ipAddress: string,
    userAgent: string,
    referrer: string,
    createdAt: Time)

  /** Two OTP rows belong to the same (key, type, action) tuple. */
  predicate SameTuple(a: OtpRow, b: OtpRow) {
    a.key == b.key && a.otpType == b.otpType && a.action == b.action
  }

  /** The single-active-OTP invariant: no two pending rows share a tuple. */
  ghost predicate AtMostOnePending(rows: seq<OtpRow>) {
    forall i, j :: 0 <= i < j < |rows| && rows[i].status == Pending && rows[j].status == Pending ==>
      !SameTuple(rows[i], rows[j])
  }

  ghost predicate OtpIdsBelow(rows: seq<OtpRow>, next: int) {
    (forall i :: 0 <= i < |rows| ==> rows[i].id < next) &&
    (forall i, j :: 0 <= i < j < |rows| ==> rows[i].id != rows[j].id)
  }

  ghost predicate UserIdsBelow(rows: seq<UserRow>, next: int) {
    (forall i :: 0 <= i < |rows| ==> rows[i].id < next) &&
    (forall i, j :: 0 <= i < j < |rows| ==> rows[i].id != rows[j].id)
  }

  /** The `UNIQUE` constraint on `users.email` (exact, case-sensitive). */
  ghost predicate UniqueEmails(rows: seq<UserRow>) {
    forall i, j :: 0 <= i < j < |rows| ==> rows[i].email != rows[j].email
  }

  ghost predicate UrlIdsBelow(rows: seq<UrlRow>, next: int) {
    (forall i :: 0 <= i < |rows| ==> rows[i].id < next) &&
    (forall i, j :: 0 <= i < j < |rows| ==> rows[i].id != rows[j].id)
  }

  ghost predicate AnalyticsIdsBelow(rows: seq<AnalyticsRow>, next: int) {
    (forall i :: 0 <= i < |rows| ==> rows[i].id < next) &&
    (forall i, j :: 0 <= i < j < |rows| ==> rows[i].id != rows[j].id)
  }

  /** The OTP table's invariant. */
  ghost predicate OtpTableOk(rows: seq<OtpRow>, next: int) {
    OtpIdsBelow(rows, next) && AtMostOnePending(rows)
  }

  /** The users table's invariant. */
  ghost predicate UserTableOk(rows: seq<UserRow>, next: int) {
    UserIdsBelow(rows, next) && UniqueEmails(rows)
  }

  class Db {
    var otps: seq<OtpRow>
    var users: seq<UserRow>
    var urls: seq<UrlRow>
    var analytics: seq<AnalyticsRow>
    var nextOtpId: int
    var nextUserId: int
    var nextUrlId: int
    var nextAnalyticsId: int

    ghost predicate Valid()
      reads this
    {
      OtpTableOk(otps, nextOtpId) &&
      UserTableOk(users, nextUserId) &&
      UrlIdsBelow(urls, nextUrlId) &&
      AnalyticsIdsBelow(analytics, nextAnalyticsId)
    }

    /** An empty database whose identity columns start at 1. */
    constructor ()
      ensures Valid()
      ensures otps == [] && users == [] && urls == [] && analytics == []
      ensures nextOtpId == 1 && nextUserId == 1 && nextUrlId == 1 && nextAnalyticsId == 1
    {
      otps, users, urls, analytics := [], [], [], [];
      nextOtpId, nextUserId, nextUrlId, nextAnalyticsId := 1, 1, 1, 1;
    }
  }
}

/** Short-URL records (model/url.go): the status set, lookups by code, the
    per-user listing, registration checks and the two writes. Store
    failures are `Option<string>` parameters carrying the driver's text. */
module UrlModel {
  import opened Common
  import opened Schema
  import opened UrlUtils

  // ---------------------------------------------------------------------
  // Statuses

  function UrlStatusName(s: UrlStatus): string {
    match s
    case Active => "active"
    case Inactive => "inactive"
    case Deleted => "deleted"
    case Expired => "expired"
  }

  /** `UrlStatus.IsValid`. */
  predicate IsValidUrlStatus(s: string) {
    s == "active" || s == "inactive" || s == "deleted" || s == "expired"
  }

  /** A string as a status, when it names one. */
  function ParseUrlStatus(s: string): (r: Option<UrlStatus>)
    ensures r.Some? <==> IsValidUrlStatus(s)
    ensures r.Some? ==> UrlStatusName(r.value) == s
  {
    if s == "active" then Some(Active)
    else if s == "inactive" then Some(Inactive)
    else if s == "deleted" then Some(Deleted)
    else if s == "expired" then Some(Expired)
    else None
  }

  /** The valid strings are exactly the four names, each name parses back to
      its status, and distinct statuses have distinct names. */
  lemma UrlStatusNamesRoundTrip(st: UrlStatus, su: UrlStatus, s: string)
    ensures IsValidUrlStatus(UrlStatusName(st))
    ensures ParseUrlStatus(UrlStatusName(st)) == Some(st)
    ensures UrlStatusName(st) == UrlStatusName(su) ==> st == su
    ensures IsValidUrlStatus(s) <==> exists t: UrlStatus :: UrlStatusName(t) == s
  {
    if IsValidUrlStatus(s) {
      assert UrlStatusName(ParseUrlStatus(s).value) == s;
    }
  }

  // ---------------------------------------------------------------------
  // Error texts

  const MsgNoUrl := "no URL found for the provided code"
  const MsgNoActiveUrl := "no active URL found for the provided code"
  const MsgInvalidUrlStatus := "invalid URL status"
  const MsgCodeExists := "URL code already exists !"

  /** What the driver reports when a NULL `expiry_at` is scanned into a
      non-nullable time. */
  const MsgNullExpiryScan := "sql: Scan error on column index 6, name \"expiry_at\": unsupported Scan, storing driver.Value type <nil> into type *time.Time"

  function GetByCodeFailure(text: string): string {
    "Error while trying to get URL by code - " + text + " !"
  }

  function UpdateStatusFailure(text: string): string {
    "Error while trying to update URL status - " + text + " !"
  }

  function SaveFailure(text: string): string {
    "Error while trying to save URL - " + text + " !"
  }

  function ListFailure(text: string): string {
    "failed to get URLs by user: " + text
  }

  function ScanFailure(text: string): string {
    "failed to scan URL: " + text
  }

  // ---------------------------------------------------------------------
  // Lookups by code

  predicate CodeMatches(row: UrlRow, code: string, activeOnly: bool) {
    row.code == code && (activeOnly ==> row.status == Active)
  }

  /** The row a `... WHERE code=$1 [AND status='active']` query yields: the
      first match in table order. */
  function FindUrl(rows: seq<UrlRow>, code: string, activeOnly: bool): (r: Option<nat>)
    ensures r.Some? ==> r.value < |rows| && CodeMatches(rows[r.value], code, activeOnly)
    ensures r.Some? ==> forall j :: 0 <= j < r.value ==> !CodeMatches(rows[j], code, activeOnly)
    ensures r.None? ==> forall j :: 0 <= j < |rows| ==> !CodeMatches(rows[j], code, activeOnly)
  {
    if rows == [] then None
    else if CodeMatches(rows[0], code, activeOnly) then Some(0)
    else match FindUrl(rows[1..], code, activeOnly)
      case None => None
      case Some(k) => Some(k + 1)
  }

  /** The `Url` the by-code lookups build from a row: `click_count` is not
      selected, so it stays 0; a NULL expiry cannot be scanned. */
  function Loaded(row: UrlRow): UrlRec
    requires row.expiryAt.Some?
  {
    UrlRec(row.id, row.userId, row.url, row.code, row.status, row.createdAt, 0, row.expiryAt.value)
  }

  function LookupByCode(rows: seq<UrlRow>, code: string, activeOnly: bool, fault: Option<string>): (r: Result<UrlRec>)
    ensures r.Ok? ==> r.value.code == code && r.value.clickCount == 0
    ensures r.Ok? ==>
      exists i :: 0 <= i < |rows| && rows[i].id == r.value.id && rows[i].status == r.value.status &&
        CodeMatches(rows[i], code, activeOnly) && rows[i].url == r.value.url && rows[i].expiryAt == Some(r.value.expiryAt)
    ensures activeOnly && r.Ok? ==> r.value.status == Active
    ensures fault.Some? ==> r == Err(Plain(GetByCodeFailure(fault.value)))
    ensures fault.None? && (forall i :: 0 <= i < |rows| ==> !CodeMatches(rows[i], code, activeOnly)) ==>
      r == Err(Plain(if activeOnly then MsgNoActiveUrl else MsgNoUrl))
  {
    if fault.Some? then Err(Plain(GetByCodeFailure(fault.value)))
    else match FindUrl(rows, code, activeOnly)
      case None => Err(Plain(if activeOnly then MsgNoActiveUrl else MsgNoUrl))
      case Some(i) =>
        if rows[i].expiryAt.None? then Err(Plain(GetByCodeFailure(MsgNullExpiryScan)))
        else Ok(Loaded(rows[i]))
  }

  /** `GetUrlByCode`: a URL of any status. */
  function GetUrlByCode(rows: seq<UrlRow>, code: string, fault: Option<string>): (r: Result<UrlRec>)
    ensures fault.Some? ==> r == Err(Plain(GetByCodeFailure(fault.value)))
    ensures fault.None? && FindUrl(rows, code, false).None? ==> r == Err(Plain(MsgNoUrl))
    ensures fault.None? && FindUrl(rows, code, false).Some? ==>
      var row := rows[FindUrl(rows, code, false).value];
      row.code == code &&
      r == if row.expiryAt.None? then Err(Plain(GetByCodeFailure(MsgNullExpiryScan)))
           else Ok(UrlRec(row.id, row.userId, row.url, code, row.status, row.createdAt, 0, row.expiryAt.value))
  {
    LookupByCode(rows, code, false, fault)
  }

  /** `getUrlByCode`: an active URL only. */
  function GetActiveUrlByCode(rows: seq<UrlRow>, code: string, fault: Option<string>): (r: Result<UrlRec>)
    ensures fault.Some? ==> r == Err(Plain(GetByCodeFailure(fault.value)))
    ensures fault.None? && !ActiveCodeStored(rows, code) ==> r == Err(Plain(MsgNoActiveUrl))
    ensures fault.None? && FindUrl(rows, code, true).Some? ==>
      var row := rows[FindUrl(rows, code, true).value];
      row.code == code && row.status == Active &&
      r == if row.expiryAt.None? then Err(Plain(GetByCodeFailure(MsgNullExpiryScan)))
           else Ok(UrlRec(row.id, row.userId, row.url, code, Active, row.createdAt, 0, row.expiryAt.value))
  {
    LookupByCode(rows, code, true, fault)
  }

  /** The active lookup is blind to rows that are not active: with no active
      row for the code it reports "no active URL", whatever else is stored
      under that code; with one it finds an active row. */
  lemma ActiveLookupSeesOnlyActiveRows(rows: seq<UrlRow>, code: string)
    ensures (forall i :: 0 <= i < |rows| && rows[i].code == code ==> rows[i].status != Active) ==>
      GetActiveUrlByCode(rows, code, None) == Err(Plain(MsgNoActiveUrl))
    ensures (exists i :: 0 <= i < |rows| && rows[i].code == code && rows[i].status == Active &&
              rows[i].expiryAt.Some?) &&
            (forall i :: 0 <= i < |rows| ==> rows[i].expiryAt.Some?) ==>
      GetActiveUrlByCode(rows, code, None).Ok?
  {
  }

  // ---------------------------------------------------------------------
  // Listing

  /** A failure while reading the result at the given position: `Scan`
      failing on a fetched row, or fetching the row itself failing. The
      latter ends `rows.Next()` just as the end of the result does, and the
      loop never asks `rows.Err()`. */
  datatype RowFault = ScanFault(index: nat, text: string) | FetchFault(index: nat)

  datatype ListFaults = ListFaults(query: Option<string>, scan: Option<RowFault>)

  predicate Listed(row: UrlRow, userId: int, filter: Option<UrlStatus>) {
    row.userId == userId && (filter.Some? ==> row.status == filter.value)
  }

  /** The rows the `WHERE user_id=$1 [AND status=$2]` condition keeps, in
      table order, each as often as it is stored. */
  function Select(rows: seq<UrlRow>, userId: int, filter: Option<UrlStatus>): (r: seq<UrlRow>)
    ensures forall i :: 0 <= i < |r| ==> Listed(r[i], userId, filter)
    ensures forall x :: multiset(r)[x] == if Listed(x, userId, filter) then multiset(rows)[x] else 0
  {
    if rows == [] then []
    else
      assert rows == [rows[0]] + rows[1..];
      (if Listed(rows[0], userId, filter) then [rows[0]] else []) + Select(rows[1..], userId, filter)
  }

  predicate NewestFirst(s: seq<UrlRow>) {
    forall i, j :: 0 <= i < j < |s| ==> s[i].createdAt >= s[j].createdAt
  }

  function InsertByAge(r: UrlRow, s: seq<UrlRow>): (out: seq<UrlRow>)
    requires NewestFirst(s)
    ensures NewestFirst(out)
    ensures multiset(out) == multiset(s) + multiset{r}
    ensures |out| == |s| + 1
    ensures forall i :: 0 <= i < |out| ==> out[i] == r || out[i] in s
  {
    if s == [] || r.createdAt >= s[0].createdAt then [r] + s
    else
      var rest := InsertByAge(r, s[1..]);
      assert s == [s[0]] + s[1..];
      assert forall i :: 0 <= i < |rest| ==> s[0].createdAt >= rest[i].createdAt;
      [s[0]] + rest
  }

  /** `ORDER BY created_at DESC`. */
  function SortNewestFirst(s: seq<UrlRow>): (out: seq<UrlRow>)
    ensures NewestFirst(out)
    ensures multiset(out) == multiset(s)
    ensures |out| == |s|
  {
    if s == [] then []
    else
      assert s == [s[0]] + s[1..];
      InsertByAge(s[0], SortNewestFirst(s[1..]))
  }

  /** The query's result set. */
  function QueryRows(rows: seq<UrlRow>, userId: int, filterStatus: string): seq<UrlRow> {
    SortNewestFirst(Select(rows, userId, ParseUrlStatus(filterStatus)))
  }

  /** One listed entry: NULL expiry read as the zero time, click count not
      selected (0), and the public link for the code. */
  function ListEntry(cfg: AppConfig, row: UrlRow): UrlWithShortCode {
    var expiry := if row.expiryAt.Some? then row.expiryAt.value else 0;
    UrlWithShortCode(UrlRec(row.id, row.userId, row.url, row.code, row.status, row.createdAt, 0, expiry),
                     GetShortUrl(cfg, row.code))
  }

  /** The entries built from the result rows, one per row, in order. */
  function Entries(cfg: AppConfig, q: seq<UrlRow>): (es: seq<UrlWithShortCode>)
    ensures |es| == |q|
    ensures forall k :: 0 <= k < |q| ==> es[k] == ListEntry(cfg, q[k])
  {
    seq(|q|, i requires 0 <= i < |q| => ListEntry(cfg, q[i]))
  }

  /** The outcome of reading the result rows: a scan failure within the
      result is an error; otherwise the entries of the rows read, in order,
      which stop short of the result exactly at a fetch failure within it. */
  function ScanResult(cfg: AppConfig, q: seq<UrlRow>, scan: Option<RowFault>): (r: Result<seq<UrlWithShortCode>>)
    ensures r.Err? <==> scan.Some? && scan.value.ScanFault? && scan.value.index < |q|
    ensures r.Err? ==> r.error == Plain(ScanFailure(scan.value.text))
    ensures r.Ok? ==> |r.value| <= |q| && forall k :: 0 <= k < |r.value| ==> r.value[k] == ListEntry(cfg, q[k])
    ensures r.Ok? ==>
      (|r.value| < |q| <==> scan.Some? && scan.value.FetchFault? && scan.value.index < |q|)
    ensures r.Ok? && |r.value| < |q| ==> |r.value| == scan.value.index
  {
    if scan.Some? && scan.value.index < |q| then
      match scan.value
      case ScanFault(_, text) => Err(Plain(ScanFailure(text)))
      case FetchFault(n) => Ok(Entries(cfg, q[..n]))
    else Ok(Entries(cfg, q))
  }

  /** A fetch failure is reported as success: the listing silently holds
      only the rows read before it. */
  lemma FetchFailureTruncatesListing(cfg: AppConfig, q: seq<UrlRow>, n: nat)
    requires n < |q|
    ensures ScanResult(cfg, q, Some(FetchFault(n))) == Ok(Entries(cfg, q[..n]))
    ensures ScanResult(cfg, q, Some(FetchFault(n))) != ScanResult(cfg, q, None)
  {
    assert |Entries(cfg, q[..n])| != |Entries(cfg, q)|;
  }

  /** What `GetUrlsByUser` returns. */
  function ListSpec(rows: seq<UrlRow>, cfg: AppConfig, userId: int, filterStatus: string, f: ListFaults)
    : Result<seq<UrlWithShortCode>>
  {
    if f.query.Some? then Err(Plain(ListFailure(f.query.value)))
    else ScanResult(cfg, QueryRows(rows, userId, filterStatus), f.scan)
  }

  /** A stored row the query should return: the user's, and of the filter's
      status when the filter names one. */
  predicate InQuery(rows: seq<UrlRow>, x: UrlRow, userId: int, filterStatus: string) {
    x in rows && x.userId == userId && (IsValidUrlStatus(filterStatus) ==> UrlStatusName(x.status) == filterStatus)
  }

  /** A listing holds the user's rows (of the filter's status when the
      filter names one, of every status otherwise), newest first, each with
      its short link; the click counts read 0. It holds every such row
      unless fetching a row failed, and then the ones before that row. */
  lemma ListingContents(rows: seq<UrlRow>, cfg: AppConfig, userId: int, filterStatus: string, f: ListFaults)
    requires ListSpec(rows, cfg, userId, filterStatus, f).Ok?
    ensures var q := QueryRows(rows, userId, filterStatus);
      var out := ListSpec(rows, cfg, userId, filterStatus, f).value;
      |out| <= |q| &&
      (|out| == |q| || (f.scan.Some? && f.scan.value.FetchFault? && f.scan.value.index == |out|)) &&
      (forall x :: x in q <==> InQuery(rows, x, userId, filterStatus)) &&
      (forall i :: 0 <= i < |out| ==>
        out[i].url.userId == userId && out[i].url.clickCount == 0 && out[i].url.code == q[i].code &&
        out[i].shortUrl == GetShortUrl(cfg, out[i].url.code)) &&
      (forall i, j :: 0 <= i < j < |out| ==> out[i].url.createdAt >= out[j].url.createdAt)
  {
    var q := QueryRows(rows, userId, filterStatus);
    QueryMembers(rows, userId, filterStatus);
    forall i | 0 <= i < |q| ensures q[i].userId == userId {
      assert q[i] in q;
    }
  }

  /** The query returns each stored row the condition keeps, as often as it
      is stored, and nothing else. */
  lemma QueryMembers(rows: seq<UrlRow>, userId: int, filterStatus: string)
    ensures var q := QueryRows(rows, userId, filterStatus);
      forall x :: x in q <==> InQuery(rows, x, userId, filterStatus)
  {
    var q := QueryRows(rows, userId, filterStatus);
    var filter := ParseUrlStatus(filterStatus);
    forall x ensures x in q <==> InQuery(rows, x, userId, filterStatus) {
      assert multiset(q)[x] == if Listed(x, userId, filter) then multiset(rows)[x] else 0;
      assert x in q <==> multiset(q)[x] > 0;
      assert x in rows <==> multiset(rows)[x] > 0;
      if filter.Some? {
        UrlStatusNamesRoundTrip(x.status, filter.value, filterStatus);
      }
    }
  }

  /** `GetUrlsByUser`: run the query, then scan the result rows one by one. */
  method GetUrlsByUser(db: Db, cfg: AppConfig, userId: int, filterStatus: string, f: ListFaults)
    returns (r: Result<seq<UrlWithShortCode>>)
    ensures r == ListSpec(db.urls, cfg, userId, filterStatus, f)
  {
    if f.query.Some? {
      return Err(Plain(ListFailure(f.query.value)));
    }
    r := ScanRows(cfg, QueryRows(db.urls, userId, filterStatus), f.scan);
  }

  /** The row loop of `GetUrlsByUser`: each result row becomes an entry
      with its short link, until a scan fails (an error) or a fetch fails
      (the end of the loop, as at the end of the result). */
  method ScanRows(cfg: AppConfig, q: seq<UrlRow>, scan: Option<RowFault>) returns (r: Result<seq<UrlWithShortCode>>)
    ensures r == ScanResult(cfg, q, scan)
  {
    var urls: seq<UrlWithShortCode> := [];
    var i := 0;
    while i < |q|
      invariant 0 <= i <= |q|
      invariant scan.Some? ==> i <= scan.value.index
      invariant |urls| == i
      invariant forall k :: 0 <= k < i ==> urls[k] == ListEntry(cfg, q[k])
    {
      if scan.Some? && scan.value.index == i {
        if scan.value.FetchFault? {
          assert urls == Entries(cfg, q[..i]);
          return Ok(urls);
        }
        return Err(Plain(ScanFailure(scan.value.text)));
      }
      urls := urls + [ListEntry(cfg, q[i])];
      i := i + 1;
    }
    assert urls == Entries(cfg, q);
    r := Ok(urls);
  }

  // ---------------------------------------------------------------------
  // Registration

  /** The registration request after binding. */
  datatype CreateShortUrlRec = CreateShortUrlRec(url: string, expiryAt: Time, code: string, userId: int)

  /** The code in the `Url` that `getUrlByCode` returns next to its result.
      `Scan` fills the columns in order, so a found active row's code is
      already set when the later `expiry_at` column fails on NULL; a failed
      query or no matching row leaves it the empty string. */
  function ScannedCode(rows: seq<UrlRow>, code: string, fault: Option<string>): (c: string)
    ensures c != "" ==> c == code
    ensures c == code <==> code == "" || (fault.None? && ActiveCodeStored(rows, code))
  {
    if fault.Some? then ""
    else match FindUrl(rows, code, true)
      case None => ""
      case Some(i) => rows[i].code
  }

  /** `CreateShortUrl.Validate` over values: the slugged code (which the
      receiver keeps) and the new, not yet stored, `Url`. The refusal test
      is "scanned code equals the slug, or no lookup error", so an empty slug
      is always refused, an active row with the slug refuses even when its
      NULL expiry fails the scan, and a failed query lets any other slug
      through. */
  function ValidateSpec(rows: seq<UrlRow>, req: CreateShortUrlRec, now: Time, slugMake: string -> string,
                        ksuid: string, fault: Option<string>): (res: (string, Result<UrlRec>))
  {
    var code := GenerateSlug(req.code, DefaultSlugLength, slugMake, ksuid);
    var found := GetActiveUrlByCode(rows, code, fault);
    if ScannedCode(rows, code, fault) == code || found.Ok? then (code, Err(Plain(MsgCodeExists)))
    else (code, Ok(UrlRec(0, req.userId, req.url, code, Active, now, 0, req.expiryAt)))
  }

  predicate ActiveCodeStored(rows: seq<UrlRow>, code: string) {
    exists i :: 0 <= i < |rows| && rows[i].code == code && rows[i].status == Active
  }

  /** Validation refuses exactly when the slug is empty or an active URL has
      it (or, for a failed lookup, only when the slug is empty); a success
      carries the caller's user, target and expiry, the slug, status active
      and the current time. */
  lemma ValidateOutcome(rows: seq<UrlRow>, req: CreateShortUrlRec, now: Time, slugMake: string -> string,
                        ksuid: string, fault: Option<string>)
    ensures var (code, r) := ValidateSpec(rows, req, now, slugMake, ksuid, fault);
      code == GenerateSlug(req.code, DefaultSlugLength, slugMake, ksuid) &&
      (r.Err? <==> (code == "" || (fault.None? && ActiveCodeStored(rows, code)))) &&
      (r.Err? ==> r.error == Plain(MsgCodeExists)) &&
      (r.Ok? ==> r.value == UrlRec(0, req.userId, req.url, code, Active, now, 0, req.expiryAt))
  {
    var code := GenerateSlug(req.code, DefaultSlugLength, slugMake, ksuid);
    ActiveLookupSeesOnlyActiveRows(rows, code);
  }

  /** No two active rows share a code. */
  predicate ActiveCodesUnique(rows: seq<UrlRow>) {
    forall i, j :: 0 <= i < j < |rows| && rows[i].status == Active && rows[j].status == Active ==>
      rows[i].code != rows[j].code
  }

  /** Storing what a fault-free validation returned keeps active codes
      unique. */
  lemma ValidatedSaveKeepsActiveCodesUnique(rows: seq<UrlRow>, req: CreateShortUrlRec, now: Time,
                                             slugMake: string -> string, ksuid: string, id: int)
    requires ActiveCodesUnique(rows)
    requires ValidateSpec(rows, req, now, slugMake, ksuid, None).1.Ok?
    ensures var u := ValidateSpec(rows, req, now, slugMake, ksuid, None).1.value;
      ActiveCodesUnique(rows + [SavedRow(id, u)])
  {
    var u := ValidateSpec(rows, req, now, slugMake, ksuid, None).1.value;
    ValidateOutcome(rows, req, now, slugMake, ksuid, None);
    var r := rows + [SavedRow(id, u)];
    forall i, j | 0 <= i < j < |r| && r[i].status == Active && r[j].status == Active
      ensures r[i].code != r[j].code
    {
      if j == |rows| {
        assert r[i] == rows[i];
      }
    }
  }

  /** An active row whose NULL expiry makes the lookup fail still blocks its
      code: the scan had filled in the code before it failed. */
  lemma NullExpiryRowBlocksItsCode(req: CreateShortUrlRec, now: Time, ksuid: string)
    requires req.code == "abc"
    ensures var rows := [UrlRow(1, 7, "http://a", "abc", Active, 0, 0, None)];
      GetActiveUrlByCode(rows, "abc", None) == Err(Plain(GetByCodeFailure(MsgNullExpiryScan))) &&
      ValidateSpec(rows, req, now, s => s, ksuid, None) == ("abc", Err(Plain(MsgCodeExists)))
  {
    var rows := [UrlRow(1, 7, "http://a", "abc", Active, 0, 0, None)];
    assert rows[0].code == "abc" && rows[0].status == Active;
    assert GenerateSlug("abc", DefaultSlugLength, s => s, ksuid) == "abc";
    assert ActiveCodeStored(rows, "abc");
  }

  /** The row `Url.Save` inserts: the expiry is written even when zero, and
      the click count starts at 0. */
  function SavedRow(id: int, u: UrlRec): UrlRow {
    UrlRow(id, u.userId, u.url, u.code, u.status, u.createdAt, 0, Some(u.expiryAt))
  }

  /** `UPDATE url SET status=$1 WHERE id=$2`. */
  function SetUrlStatus(rows: seq<UrlRow>, id: int, s: UrlStatus): (r: seq<UrlRow>)
    ensures |r| == |rows|
    ensures forall i :: 0 <= i < |rows| ==> r[i] == if rows[i].id == id then rows[i].(status := s) else rows[i]
  {
    seq(|rows|, i requires 0 <= i < |rows| => if rows[i].id == id then rows[i].(status := s) else rows[i])
  }

  /** `Url.UpdateStatus` writes the receiver's current status, not the new
      one; for a receiver loaded from the table the write changes nothing. */
  lemma StoredStatusNeverChanges(rows: seq<UrlRow>, k: nat)
    requires k < |rows|
    requires forall i, j :: 0 <= i < j < |rows| ==> rows[i].id != rows[j].id
    ensures SetUrlStatus(rows, rows[k].id, rows[k].status) == rows
  {
    var r := SetUrlStatus(rows, rows[k].id, rows[k].status);
    forall i | 0 <= i < |rows| ensures r[i] == rows[i] {
      if i < k { assert rows[i].id != rows[k].id; }
      if i > k { assert rows[k].id != rows[i].id; }
    }
  }

  /** The `Url` receiver. */
  class Url {
    var id: int
    var userId: int
    var url: string
    var code: string
    var status: UrlStatus
    var createdAt: Time
    var clickCount: int
    var expiryAt: Time

    function Value(): UrlRec
      reads this
    {
      UrlRec(id, userId, url, code, status, createdAt, clickCount, expiryAt)
    }

    constructor (u: UrlRec)
      ensures Value() == u
    {
      id, userId, url, code := u.id, u.userId, u.url, u.code;
      status, createdAt, clickCount, expiryAt := u.status, u.createdAt, u.clickCount, u.expiryAt;
    }

    /** An invalid status is refused; otherwise the store is sent the
        receiver's current status, and the receiver takes the new one only
        once that write succeeded. */
    method UpdateStatus(db: Db, newStatus: string, fault: Option<string>) returns (err: Option<Error>)
      requires db.Valid()
      modifies this`status, db`urls
      ensures db.Valid()
      ensures !IsValidUrlStatus(newStatus) ==>
        err == Some(Plain(MsgInvalidUrlStatus)) && db.urls == old(db.urls) && status == old(status)
      ensures IsValidUrlStatus(newStatus) && fault.Some? ==>
        err == Some(Plain(UpdateStatusFailure(fault.value))) && db.urls == old(db.urls) && status == old(status)
      ensures IsValidUrlStatus(newStatus) && fault.None? ==>
        err.None? && db.urls == SetUrlStatus(old(db.urls), id, old(status)) &&
        status == ParseUrlStatus(newStatus).value
    {
      var parsed := ParseUrlStatus(newStatus);
      if parsed.None? {
        return Some(Plain(MsgInvalidUrlStatus));
      }
      if fault.Some? {
        return Some(Plain(UpdateStatusFailure(fault.value)));
      }
      db.urls := SetUrlStatus(db.urls, id, status);
      status := parsed.value;
      err := None;
    }

    /** `INSERT ... RETURNING id, created_at`. */
    method Save(db: Db, fault: Option<string>) returns (err: Option<Error>)
      requires db.Valid()
      modifies this`id, db`urls, db`nextUrlId
      ensures db.Valid()
      ensures fault.Some? ==>
        err == Some(Plain(SaveFailure(fault.value))) && db.urls == old(db.urls) &&
        db.nextUrlId == old(db.nextUrlId) && id == old(id)
      ensures fault.None? ==>
        err.None? && db.urls == old(db.urls) + [SavedRow(old(db.nextUrlId), old(Value()))] &&
        db.nextUrlId == old(db.nextUrlId) + 1 && id == old(db.nextUrlId)
      ensures Value() == old(Value()).(id := id)
    {
      if fault.Some? {
        return Some(Plain(SaveFailure(fault.value)));
      }
      db.urls := db.urls + [SavedRow(db.nextUrlId, Value())];
      id := db.nextUrlId;
      db.nextUrlId := db.nextUrlId + 1;
      err := None;
    }
  }

  /** The `CreateShortUrl` receiver, whose code `Validate` replaces by its slug. */
  class CreateShortUrl {
    var url: string
    var expiryAt: Time
    var code: string
    var userId: int

    function Value(): CreateShortUrlRec
      reads this
    {
      CreateShortUrlRec(url, expiryAt, code, userId)
    }

    constructor (r: CreateShortUrlRec)
      ensures Value() == r
    {
      url, expiryAt, code, userId := r.url, r.expiryAt, r.code, r.userId;
    }

    method Validate(db: Db, now: Time, slugMake: string -> string, ksuid: string, fault: Option<string>)
      returns (r: Result<UrlRec>)
      modifies this`code
      ensures var (slug, res) := ValidateSpec(db.urls, old(Value()), now, slugMake, ksuid, fault);
        code == slug && r == res
      ensures Value() == old(Value()).(code := code)
    {
      code := GenerateSlug(code, DefaultSlugLength, slugMake, ksuid);
      var found := GetActiveUrlByCode(db.urls, code, fault);
      if ScannedCode(db.urls, code, fault) == code || found.Ok? {
        return Err(Plain(MsgCodeExists));
      }
      r := Ok(UrlRec(0, userId, url, code, Active, now, 0, expiryAt));
    }
  }
}

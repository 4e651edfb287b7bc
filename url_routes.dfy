/** The short-URL endpoints (routes/url.go): `GET /:code` redirects, `GET
    /url/list` lists the caller's URLs, `POST /url/register` registers one.
    The visit recorded in the background after a redirect and the mail sent
    after a registration are returned as values. */
module UrlRoutes {
  import opened Common
  import opened Schema
  import opened Http
  import opened ErrorResponse
  import opened UrlUtils
  import opened UrlModel

  const MsgNotActive := "URL is not active"
  const MsgUrlExpired := "URL has expired"
  const MsgInvalidStatusQuery := "Invalid URL status !"
  const MsgShortUrlCreated := "Short URL created successfully"

  /** What the redirect hands to the background visit recorder. */
  datatype Visit = Visit(urlId: int, ipAddress: string, userAgent: string, referrer: string)

  /** The three ways a lookup by code ends. */
  datatype Decision = Refuse(err: Error) | ExpireThenRefuse(url: UrlRec) | Follow(url: UrlRec)

  /** Redirect only an active URL whose expiry is zero or not yet passed;
      an active URL whose non-zero expiry lies strictly before now is to be
      marked expired and refused. */
  function RedirectDecision(found: Result<UrlRec>, now: Time): (d: Decision)
    ensures d.Follow? <==>
      found.Ok? && found.value.status == Active && (found.value.expiryAt == 0 || found.value.expiryAt >= now)
    ensures d.ExpireThenRefuse? <==>
      found.Ok? && found.value.status == Active && found.value.expiryAt != 0 && found.value.expiryAt < now
    ensures !d.Refuse? ==> d.url == found.value
    ensures found.Err? ==> d == Refuse(found.error)
    ensures found.Ok? && found.value.status != Active ==> d == Refuse(Plain(MsgNotActive))
  {
    if found.Err? then Refuse(found.error)
    else if found.value.status != Active then Refuse(Plain(MsgNotActive))
    else if found.value.expiryAt != 0 && found.value.expiryAt < now then ExpireThenRefuse(found.value)
    else Follow(found.value)
  }

  /** A redirect goes to exactly the stored target of a stored active row
      of that code. */
  lemma RedirectTargetIsStored(rows: seq<UrlRow>, code: string, fault: Option<string>, now: Time)
    requires RedirectDecision(GetUrlByCode(rows, code, fault), now).Follow?
    ensures var u := RedirectDecision(GetUrlByCode(rows, code, fault), now).url;
      exists i :: 0 <= i < |rows| && rows[i].code == code && rows[i].status == Active && rows[i].url == u.url &&
        rows[i].id == u.id
  {
    var u := RedirectDecision(GetUrlByCode(rows, code, fault), now).url;
    assert GetUrlByCode(rows, code, fault) == Ok(u);
    var i :| 0 <= i < |rows| && rows[i].id == u.id && rows[i].status == u.status &&
             CodeMatches(rows[i], code, false) && rows[i].url == u.url && rows[i].expiryAt == Some(u.expiryAt);
  }

  /** Failures of the lookup and of the expiry write. */
  datatype RedirectFaults = RedirectFaults(lookup: Option<string>, expireWrite: Option<string>)

  /** `handleGetUrls`. The expiry write sends the loaded (active) status,
      so the table is left as it was in every case. */
  method HandleGetUrls(db: Db, code: string, now: Time, clientIp: string, userAgent: string, referrer: string,
                       f: RedirectFaults)
    returns (resp: Response, visit: Option<Visit>)
    requires db.Valid()
    modifies db`urls
    ensures db.Valid()
    ensures db.urls == old(db.urls)
    ensures var d := RedirectDecision(GetUrlByCode(old(db.urls), code, f.lookup), now);
      (d.Refuse? ==> resp == ResponseFor(d.err) && visit.None?) &&
      (d.ExpireThenRefuse? ==> resp == ResponseFor(Plain(MsgUrlExpired)) && visit.None?) &&
      (d.Follow? ==>
        resp == Redirect(StatusPermanentRedirect, d.url.url) &&
        visit == Some(Visit(d.url.id, clientIp, userAgent, referrer)))
  {
    visit := None;
    var found := GetUrlByCode(db.urls, code, f.lookup);
    if found.Err? {
      resp := WriteError(found.error);
      return;
    }
    var rec := found.value;
    if rec.status != Active {
      resp := WriteError(Plain(MsgNotActive));
      return;
    }
    if rec.expiryAt != 0 && rec.expiryAt < now {
      ghost var i :| 0 <= i < |db.urls| && db.urls[i].id == rec.id && db.urls[i].status == rec.status;
      StoredStatusNeverChanges(db.urls, i);
      var url := new Url(rec);
      var _ := url.UpdateStatus(db, UrlStatusName(Expired), f.expireWrite);
      resp := WriteError(Plain(MsgUrlExpired));
      return;
    }
    visit := Some(Visit(rec.id, clientIp, userAgent, referrer));
    resp := Redirect(StatusPermanentRedirect, rec.url);
  }

  /** `handleListUrls`: an empty status query lists every status, a valid
      one filters, anything else is refused. */
  method HandleListUrls(db: Db, cfg: AppConfig, loggedInUser: CtxValue, statusQuery: string, f: ListFaults)
    returns (resp: Response)
    ensures statusQuery != "" && !IsValidUrlStatus(statusQuery) ==> resp == ResponseFor(Plain(MsgInvalidStatusQuery))
    ensures statusQuery == "" || IsValidUrlStatus(statusQuery) ==>
      var listed := ListSpec(db.urls, cfg, GetInt64(loggedInUser), statusQuery, f);
      (listed.Err? ==> resp == ResponseFor(listed.error)) &&
      (listed.Ok? ==> resp == Json(StatusOK, UrlListBody(listed.value)))
  {
    var filter := "";
    if statusQuery != "" {
      if !IsValidUrlStatus(statusQuery) {
        resp := WriteError(Plain(MsgInvalidStatusQuery));
        return;
      }
      filter := statusQuery;
    }
    var urls := GetUrlsByUser(db, cfg, GetInt64(loggedInUser), filter, f);
    if urls.Err? {
      resp := WriteError(urls.error);
      return;
    }
    resp := Json(StatusOK, UrlListBody(urls.value));
  }

  /** `handleShortUrl`: the owner is always the authenticated user, and
      nothing is stored unless validation passed. */
  method HandleShortUrl(db: Db, cfg: AppConfig, body: Bound<CreateShortUrlRec>, loggedInUser: CtxValue, now: Time,
                        slugMake: string -> string, ksuid: string, lookupFault: Option<string>,
                        saveFault: Option<string>)
    returns (resp: Response, mail: Option<UrlRec>)
    requires db.Valid()
    modifies db`urls, db`nextUrlId
    ensures db.Valid()
    ensures body.BindError? ==>
      resp == ResponseFor(body.error) && mail.None? && db.urls == old(db.urls) && db.nextUrlId == old(db.nextUrlId)
    ensures body.Bound? ==>
      var req := body.value.(userId := GetInt64(loggedInUser));
      var (slug, v) := ValidateSpec(old(db.urls), req, now, slugMake, ksuid, lookupFault);
      (v.Err? ==>
        resp == ResponseFor(v.error) && mail.None? && db.urls == old(db.urls) && db.nextUrlId == old(db.nextUrlId)) &&
      (v.Ok? && saveFault.Some? ==>
        resp == ResponseFor(Plain(SaveFailure(saveFault.value))) && mail.None? &&
        db.urls == old(db.urls) && db.nextUrlId == old(db.nextUrlId)) &&
      (v.Ok? && saveFault.None? ==>
        resp == Json(StatusOK, ShortUrlBody(MsgShortUrlCreated, GetShortUrl(cfg, slug))) &&
        db.urls == old(db.urls) + [SavedRow(old(db.nextUrlId), v.value)] &&
        db.nextUrlId == old(db.nextUrlId) + 1 &&
        mail == Some(v.value.(id := old(db.nextUrlId))))
    ensures db.urls != old(db.urls) ==>
      |db.urls| == |old(db.urls)| + 1 && db.urls[|old(db.urls)|].userId == GetInt64(loggedInUser) &&
      db.urls[|old(db.urls)|].status == Active
  {
    mail := None;
    if body.BindError? {
      resp := WriteError(body.error);
      return;
    }
    var request := new CreateShortUrl(body.value.(userId := GetInt64(loggedInUser)));
    var validated := request.Validate(db, now, slugMake, ksuid, lookupFault);
    if validated.Err? {
      resp := WriteError(validated.error);
      return;
    }
    var url := new Url(validated.value);
    var saveErr := url.Save(db, saveFault);
    if saveErr.Some? {
      resp := WriteError(saveErr.value);
      return;
    }
    mail := Some(url.Value());
    resp := Json(StatusOK, ShortUrlBody(MsgShortUrlCreated, GetShortUrl(cfg, url.code)));
  }
}

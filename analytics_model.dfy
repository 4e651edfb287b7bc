/** Visit records (model/analytics.go): one analytics row per redirect, then
    the visited URL's click counter raised by one. */
module AnalyticsModel {
  import opened Common
  import opened Schema

  function InsertFailure(text: string): string {
    "Error while trying to save analytics - " + text + " !"
  }

  function IncrementFailure(text: string): string {
    "Error while trying to update click count - " + text + " !"
  }

  /** Failures of the insert and of the counter update. */
  datatype AnalyticsFaults = AnalyticsFaults(insert: Option<string>, increment: Option<string>)

  /** `UPDATE url SET click_count = click_count + 1 WHERE id = $1`. */
  function IncrementClicks(rows: seq<UrlRow>, id: int): (r: seq<UrlRow>)
    ensures |r| == |rows|
    ensures forall i :: 0 <= i < |rows| ==>
      r[i] == if rows[i].id == id then rows[i].(clickCount := rows[i].clickCount + 1) else rows[i]
  {
    seq(|rows|, i requires 0 <= i < |rows| =>
      if rows[i].id == id then rows[i].(clickCount := rows[i].clickCount + 1) else rows[i])
  }

  function TotalClicks(rows: seq<UrlRow>): int {
    if rows == [] then 0 else rows[0].clickCount + TotalClicks(rows[1..])
  }

  function CountId(rows: seq<UrlRow>, id: int): (n: nat)
    ensures n <= |rows|
  {
    if rows == [] then 0 else (if rows[0].id == id then 1 else 0) + CountId(rows[1..], id)
  }

  /** The update adds one click per row carrying the id. */
  lemma {:induction false} IncrementAddsOnePerRow(rows: seq<UrlRow>, id: int)
    ensures TotalClicks(IncrementClicks(rows, id)) == TotalClicks(rows) + CountId(rows, id)
  {
    if rows != [] {
      IncrementAddsOnePerRow(rows[1..], id);
      assert IncrementClicks(rows, id)[1..] == IncrementClicks(rows[1..], id);
    }
  }

  /** With distinct ids: the URL with the id gains exactly one click, every
      other URL is untouched, and the total rises by one; without such a URL
      nothing changes. */
  lemma IncrementExactlyOne(rows: seq<UrlRow>, id: int)
    requires forall i, j :: 0 <= i < j < |rows| ==> rows[i].id != rows[j].id
    ensures forall k :: 0 <= k < |rows| && rows[k].id == id ==>
      IncrementClicks(rows, id) == rows[k := rows[k].(clickCount := rows[k].clickCount + 1)] &&
      TotalClicks(IncrementClicks(rows, id)) == TotalClicks(rows) + 1
    ensures (forall k :: 0 <= k < |rows| ==> rows[k].id != id) ==> IncrementClicks(rows, id) == rows
  {
    IncrementAddsOnePerRow(rows, id);
    forall k | 0 <= k < |rows| && rows[k].id == id
      ensures IncrementClicks(rows, id) == rows[k := rows[k].(clickCount := rows[k].clickCount + 1)]
      ensures CountId(rows, id) == 1
    {
      CountIdOfUnique(rows, id, k);
    }
  }

  lemma {:induction false} CountIdOfUnique(rows: seq<UrlRow>, id: int, k: nat)
    requires k < |rows| && rows[k].id == id
    requires forall i, j :: 0 <= i < j < |rows| ==> rows[i].id != rows[j].id
    ensures CountId(rows, id) == 1
  {
    if k == 0 {
      CountIdAbsent(rows[1..], id);
    } else {
      assert rows[0].id != rows[k].id;
      CountIdOfUnique(rows[1..], id, k - 1);
    }
  }

  lemma {:induction false} CountIdAbsent(rows: seq<UrlRow>, id: int)
    requires forall i :: 0 <= i < |rows| ==> rows[i].id != id
    ensures CountId(rows, id) == 0
  {
    if rows != [] {
      CountIdAbsent(rows[1..], id);
    }
  }

  /** The `Analytics` receiver, whose id and creation time `Save` fills in. */
  class Analytics {
    var id: int
    var urlId: int
    var ipAddress: string
    var userAgent: string
    var referrer: string
    var createdAt: Time

    constructor (urlId: int, ipAddress: string, userAgent: string, referrer: string)
      ensures this.id == 0 && this.urlId == urlId && this.ipAddress == ipAddress
      ensures this.userAgent == userAgent && this.referrer == referrer && this.createdAt == 0
    {
      this.id := 0;
      this.urlId := urlId;
      this.ipAddress := ipAddress;
      this.userAgent := userAgent;
      this.referrer := referrer;
      this.createdAt := 0;
    }

    /** Insert the visit, then raise the URL's click count. A failed insert
        touches nothing; a failed increment leaves the visit stored. */
    method Save(db: Db, now: Time, f: AnalyticsFaults) returns (err: Option<Error>)
      requires db.Valid()
      modifies this`id, this`createdAt, db`analytics, db`nextAnalyticsId, db`urls
      ensures db.Valid()
      ensures f.insert.Some? ==>
        err == Some(Plain(InsertFailure(f.insert.value))) &&
        db.analytics == old(db.analytics) && db.nextAnalyticsId == old(db.nextAnalyticsId) && db.urls == old(db.urls)
      ensures f.insert.None? ==>
        db.analytics == old(db.analytics) + [AnalyticsRow(old(db.nextAnalyticsId), urlId, ipAddress, userAgent, referrer, now)] &&
        db.nextAnalyticsId == old(db.nextAnalyticsId) + 1 && id == old(db.nextAnalyticsId) && createdAt == now
      ensures f.insert.None? && f.increment.Some? ==>
        err == Some(Plain(IncrementFailure(f.increment.value))) && db.urls == old(db.urls)
      ensures f.insert.None? && f.increment.None? ==>
        err.None? && db.urls == IncrementClicks(old(db.urls), urlId)
    {
      if f.insert.Some? {
        return Some(Plain(InsertFailure(f.insert.value)));
      }
      db.analytics := db.analytics + [AnalyticsRow(db.nextAnalyticsId, urlId, ipAddress, userAgent, referrer, now)];
      id, createdAt := db.nextAnalyticsId, now;
      db.nextAnalyticsId := db.nextAnalyticsId + 1;
      if f.increment.Some? {
        return Some(Plain(IncrementFailure(f.increment.value)));
      }
      db.urls := IncrementClicks(db.urls, urlId);
      err := None;
    }
  }
}

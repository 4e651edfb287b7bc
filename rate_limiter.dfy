/** The Redis-backed limiter front end (db/redis.go). The limiter itself
    (`RedisLimiter.Allow`, a GCRA over Redis state) is the parameter `allow`,
    which answers with the number of requests it admits or with an error. */
module RateLimiter {
  import opened Common

  /** A limit of `rate` requests per `period`, with a burst equal to the rate. */
  datatype Limit = Limit(rate: int, burst: int, period: int)

  function PerSecond(rate: int): Limit { Limit(rate, rate, Second) }
  function PerMinute(rate: int): Limit { Limit(rate, rate, Minute) }
  function PerHour(rate: int): Limit { Limit(rate, rate, Hour) }

  /** What the limiter answers for one key and limit. */
  datatype AllowReply = Allowed(count: int) | LimiterFailure(text: string)

  const MsgUnsupportedUnit := "unsupported time unit"

  /** `checkRateLimiter`: admitted exactly when the limiter admits at least
      one request; a limiter error refuses and is passed on. */
  function CheckRateLimiter(key: string, limit: Limit, allow: (string, Limit) -> AllowReply): (r: (bool, Option<Error>))
    ensures r.0 <==> allow(key, limit).Allowed? && allow(key, limit).count > 0
    ensures r.1.Some? <==> allow(key, limit).LimiterFailure?
    ensures r.1.Some? ==> r.1.value == Plain(allow(key, limit).text)
  {
    match allow(key, limit)
    case LimiterFailure(text) => (false, Some(Plain(text)))
    case Allowed(count) => (count > 0, None)
  }

  /** `CheckRateLimitInTimeUnit`: a second, a minute or an hour selects the
      limit of `requests` per that unit; any other duration is refused. */
  function CheckRateLimitInTimeUnit(key: string, requests: int, unit: int,
                                    allow: (string, Limit) -> AllowReply): (r: (bool, Option<Error>))
    ensures unit == Second || unit == Minute || unit == Hour ==>
      r == CheckRateLimiter(key, Limit(requests, requests, unit), allow)
    ensures unit != Second && unit != Minute && unit != Hour ==> r == (false, Some(Plain(MsgUnsupportedUnit)))
  {
    if unit == Minute then CheckRateLimiter(key, PerMinute(requests), allow)
    else if unit == Hour then CheckRateLimiter(key, PerHour(requests), allow)
    else if unit == Second then CheckRateLimiter(key, PerSecond(requests), allow)
    else (false, Some(Plain(MsgUnsupportedUnit)))
  }

  /** A request is admitted only when the unit is supported and the limiter,
      asked with `requests` per that unit, admits at least one request. */
  lemma AdmissionNeedsLimiter(key: string, requests: int, unit: int, allow: (string, Limit) -> AllowReply)
    ensures CheckRateLimitInTimeUnit(key, requests, unit, allow).0 <==>
      (unit == Second || unit == Minute || unit == Hour) &&
      allow(key, Limit(requests, requests, unit)).Allowed? &&
      allow(key, Limit(requests, requests, unit)).count > 0
  {
    if unit == Minute {
      assert PerMinute(requests) == Limit(requests, requests, unit);
    } else if unit == Hour {
      assert PerHour(requests) == Limit(requests, requests, unit);
    } else if unit == Second {
      assert PerSecond(requests) == Limit(requests, requests, unit);
    }
  }

  /** Errors: an unsupported unit gives its own error whatever the limiter
      would say, and a supported one reports the limiter's error text. */
  lemma RateLimitErrors(key: string, requests: int, unit: int, a1: (string, Limit) -> AllowReply,
                        a2: (string, Limit) -> AllowReply)
    ensures unit != Second && unit != Minute && unit != Hour ==>
      CheckRateLimitInTimeUnit(key, requests, unit, a1) == (false, Some(Plain(MsgUnsupportedUnit))) &&
      CheckRateLimitInTimeUnit(key, requests, unit, a1) == CheckRateLimitInTimeUnit(key, requests, unit, a2)
    ensures (unit == Second || unit == Minute || unit == Hour) &&
            a1(key, Limit(requests, requests, unit)).LimiterFailure? ==>
      CheckRateLimitInTimeUnit(key, requests, unit, a1) ==
        (false, Some(Plain(a1(key, Limit(requests, requests, unit)).text)))
  {
    if unit == Minute {
      assert PerMinute(requests) == Limit(requests, requests, unit);
    } else if unit == Hour {
      assert PerHour(requests) == Limit(requests, requests, unit);
    } else if unit == Second {
      assert PerSecond(requests) == Limit(requests, requests, unit);
    }
  }
}

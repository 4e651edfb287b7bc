/** The global rate-limit gate (middleware/global-rate-limit.go): every
    request is keyed by its logged-in user or else its client IP and admitted
    only while the limiter allows 20 requests per minute for that key. */
module GlobalRateLimit {
  import opened Common
  import opened Http
  import opened RateLimiter

  const RequestsPerMinute := 20
  const MsgTooManyRequests := "Too Many Requests"
  const UserKeyPrefix := "global:user:"
  const IpKeyPrefix := "global:"
  const ReplacementChar: char := '\U{FFFD}'

  /** Go's `rune(n)` on an `int64`: the low 32 bits read as a signed value. */
  function Int32Of(n: int): (r: int)
    ensures -0x8000_0000 <= r < 0x8000_0000
    ensures (r - n) % 0x1_0000_0000 == 0
    ensures -0x8000_0000 <= n < 0x8000_0000 ==> r == n
  {
    (n + 0x8000_0000) % 0x1_0000_0000 - 0x8000_0000
  }

  /** A Unicode scalar value: what `string(rune)` can encode. */
  predicate IsScalar(r: int) {
    0 <= r < 0xD800 || 0xE000 <= r <= 0x10_FFFF
  }

  /** True when `string(rune(id))` is the replacement character U+FFFD:
      the low 32 bits are not a Unicode scalar (negative, a surrogate, or
      beyond U+10FFFF) or are U+FFFD itself. */
  predicate IsReplaced(id: int) {
    !IsScalar(Int32Of(id)) || Int32Of(id) == 0xFFFD
  }

  /** `string(rune(id))`: one character, U+FFFD for a value that is not a
      Unicode scalar. */
  function RuneString(id: int): (s: string)
    ensures |s| == 1
    ensures IsScalar(Int32Of(id)) ==> s[0] as int == Int32Of(id)
    ensures !IsScalar(Int32Of(id)) ==> s == [ReplacementChar]
  {
    var r := Int32Of(id);
    if IsScalar(r) then [r as char] else [ReplacementChar]
  }

  /** `prepareClientKey`: a non-zero `int64` user id in the context gives a
      user key made of a single character, anything else the client IP key. */
  function PrepareClientKey(loggedInUser: CtxValue, clientIp: string): (key: string)
    ensures GetInt64(loggedInUser) != 0 ==>
      |key| == |UserKeyPrefix| + 1 && key[..|UserKeyPrefix|] == UserKeyPrefix
    ensures GetInt64(loggedInUser) != 0 ==> key == UserKeyPrefix + RuneString(GetInt64(loggedInUser))
    ensures GetInt64(loggedInUser) == 0 ==> key == IpKeyPrefix + clientIp
  {
    var id := GetInt64(loggedInUser);
    if id != 0 then UserKeyPrefix + RuneString(id) else IpKeyPrefix + clientIp
  }

  /** Two users share one limiter key exactly when their ids agree in the
      low 32 bits, or both are rendered as U+FFFD. */
  lemma UserKeysCollide(a: Int64, b: Int64, ipA: string, ipB: string)
    requires a != 0 && b != 0
    ensures PrepareClientKey(Int64Value(a), ipA) == PrepareClientKey(Int64Value(b), ipB) <==>
      Int32Of(a) == Int32Of(b) || (IsReplaced(a) && IsReplaced(b))
  {
    var ka, kb := PrepareClientKey(Int64Value(a), ipA), PrepareClientKey(Int64Value(b), ipB);
    var ra, rb := RuneString(a), RuneString(b);
    assert ka == UserKeyPrefix + ra && kb == UserKeyPrefix + rb;
    if ka == kb {
      assert ra[0] == ka[|UserKeyPrefix|] == kb[|UserKeyPrefix|] == rb[0];
    }
  }

  /** Every user id of the form 2^32 * k + 65 is keyed as user "A". */
  lemma WrappedIdsShareKey(k: int)
    requires 0 < k < 0x8000_0000
    ensures PrepareClientKey(Int64Value(0x1_0000_0000 * k + 65), "") == UserKeyPrefix + "A"
  {
    var id := 0x1_0000_0000 * k + 65;
    assert (id + 0x8000_0000) % 0x1_0000_0000 == 0x8000_0041 by {
      assert id + 0x8000_0000 == 0x1_0000_0000 * k + 0x8000_0041;
    }
    assert Int32Of(id) == 65;
  }

  /** A request without a user id in the context is keyed by its IP alone,
      whatever else the context holds. */
  lemma AnonymousKeyedByIp(clientIp: string)
    ensures PrepareClientKey(Absent, clientIp) == PrepareClientKey(OtherValue, clientIp)
    ensures PrepareClientKey(Int64Value(0), clientIp) == IpKeyPrefix + clientIp
  {
  }

  /** `GlobalRateLimit`: None passes the request on to the next handler,
      Some(response) aborts it. The limit is 20 per minute, and an error of
      the limiter rejects the request. */
  function GlobalRateLimitGate(loggedInUser: CtxValue, clientIp: string,
                               allow: (string, Limit) -> AllowReply): (abort: Option<Response>)
    ensures var reply := allow(PrepareClientKey(loggedInUser, clientIp), Limit(20, 20, Minute));
      abort.None? <==> reply.Allowed? && reply.count > 0
    ensures abort.Some? ==> abort.value == Json(StatusTooManyRequests, MessageBody(MsgTooManyRequests))
  {
    var key := PrepareClientKey(loggedInUser, clientIp);
    AdmissionNeedsLimiter(key, RequestsPerMinute, Minute, allow);
    var (ok, _) := CheckRateLimitInTimeUnit(key, RequestsPerMinute, Minute, allow);
    if !ok then Some(Json(StatusTooManyRequests, MessageBody(MsgTooManyRequests))) else None
  }
}

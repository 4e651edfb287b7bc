/** Short-code helpers (utils/url.go). `slug.Make` and KSUID generation are
    outside the model: the slugifier is a function parameter and the KSUID
    string an input. Both produce ASCII, so byte lengths equal rune lengths. */
module UrlUtils {
  import opened Common

  /** The application host and port the short links point at. */
  datatype AppConfig = AppConfig(host: string, port: string)

  const DefaultSlugLength: int := 20

  function ShortUrlPrefix(cfg: AppConfig): string {
    "http://" + cfg.host + ":" + cfg.port + "/"
  }

  /** The public link for a code: the code placed after the app's base URL. */
  function GetShortUrl(cfg: AppConfig, code: string): (s: string)
    ensures |s| == |ShortUrlPrefix(cfg)| + |code|
    ensures s[..|ShortUrlPrefix(cfg)|] == ShortUrlPrefix(cfg)
    ensures s[|ShortUrlPrefix(cfg)|..] == code
  {
    ShortUrlPrefix(cfg) + code
  }

  /** Reads the code back out of a short link of this app. */
  function CodeOf(cfg: AppConfig, s: string): (c: Option<string>)
  {
    var p := ShortUrlPrefix(cfg);
    if |s| >= |p| && s[..|p|] == p then Some(s[|p|..]) else None
  }

  /** Every code is recovered from its link, so distinct codes get distinct links. */
  lemma ShortUrlRoundTrip(cfg: AppConfig, code: string, other: string)
    ensures CodeOf(cfg, GetShortUrl(cfg, code)) == Some(code)
    ensures GetShortUrl(cfg, code) == GetShortUrl(cfg, other) ==> code == other
  {
    var s := GetShortUrl(cfg, code);
    if s == GetShortUrl(cfg, other) {
      assert code == s[|ShortUrlPrefix(cfg)|..] == other;
    }
  }

  /** The length bound actually applied: the requested one when it lies in
      1..20, otherwise 20. */
  function EffectiveMax(maxLength: int): (m: int)
    ensures 1 <= m <= DefaultSlugLength
    ensures 1 <= maxLength <= DefaultSlugLength ==> m == maxLength
    ensures (maxLength <= 0 || maxLength > DefaultSlugLength) ==> m == DefaultSlugLength
  {
    if maxLength <= 0 || maxLength > DefaultSlugLength then DefaultSlugLength else maxLength
  }

  function Truncate(s: string, max: int): (r: string)
    requires max >= 0
  {
    if |s| > max then s[..max] else s
  }

  /** The slug for a requested code: the slugified input when the input is
      non-empty, a fresh KSUID otherwise, cut to the effective length. */
  function GenerateSlug(input: string, maxLength: int, slugMake: string -> string, ksuid: string): (r: string)
    ensures var source := if input != "" then slugMake(input) else ksuid;
      |r| <= EffectiveMax(maxLength) && |r| <= |source| &&
      r == source[..|r|] &&
      (|r| == |source| || |r| == EffectiveMax(maxLength))
  {
    var max := EffectiveMax(maxLength);
    if input != "" then Truncate(slugMake(input), max)
    else Truncate(ksuid, max)
  }

  /** Whatever the input and requested length, a slug is at most 20 runes,
      and it is exactly the prefix of min(length, bound) runes of its source. */
  lemma SlugBounds(input: string, maxLength: int, slugMake: string -> string, ksuid: string)
    ensures |GenerateSlug(input, maxLength, slugMake, ksuid)| <= 20
    ensures var source := if input != "" then slugMake(input) else ksuid;
      var n := if |source| < EffectiveMax(maxLength) then |source| else EffectiveMax(maxLength);
      GenerateSlug(input, maxLength, slugMake, ksuid) == source[..n]
  {
  }
}

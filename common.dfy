/** Values shared by every part of the model: optional values, the error
    values the handlers pass around, clock units and decimal rendering. */
module Common {

  datatype Option<+T> = None | Some(value: T)

  /** One failed validation rule, as the request validator reports it:
      the struct field, the rule's tag, the rule's parameter and the
      library's own text for the failure (what `Error()` returns). */
  datatype FieldError = FieldError(field: string, tag: string, param: string, text: string)

  /** An `error` value: either a list of validation failures, or any other
      error with its `Error()` text. */
  datatype Error = Plain(message: string) | Invalid(fieldErrors: seq<FieldError>) {
    /** The error's `Error()` text; for validation failures, the failures'
        own texts one per line. */
    function Text(): string {
      match this
      case Plain(m) => m
      case Invalid(fes) => JoinLines(fes)
    }
  }

  function JoinLines(fes: seq<FieldError>): string {
    if fes == [] then ""
    else if |fes| == 1 then fes[0].text
    else fes[0].text + "\n" + JoinLines(fes[1..])
  }

  datatype Result<+T> = Ok(value: T) | Err(error: Error)

  /** Wall-clock instants, in nanoseconds since the zero time of Go's
      `time.Time` (so 0 is the zero time and `IsZero` means `== 0`). */
  type Time = int

  /** Go's `int64`. */
  type Int64 = n: int | -0x8000_0000_0000_0000 <= n < 0x8000_0000_0000_0000

  const Second: int := 1_000_000_000
  const Minute: int := 60 * Second
  const Hour: int := 60 * Minute

  predicate IsDigit(c: char) {
    '0' <= c <= '9'
  }

  function DigitChar(d: int): (c: char)
    requires 0 <= d < 10
    ensures IsDigit(c) && c as int - '0' as int == d
  {
    ('0' as int + d) as char
  }

  /** The number a string of decimal digits denotes. */
  function DecimalValue(s: string): (v: nat)
    requires forall i :: 0 <= i < |s| ==> IsDigit(s[i])
  {
    if s == [] then 0
    else
      assert IsDigit(s[|s| - 1]);
      DecimalValue(s[..|s| - 1]) * 10 + (s[|s| - 1] as int - '0' as int)
  }

  /** Decimal rendering of a natural number without leading zeros. */
  function NatToDecimal(n: nat): (s: string)
    ensures |s| > 0
    ensures forall i :: 0 <= i < |s| ==> IsDigit(s[i])
    ensures DecimalValue(s) == n
  {
    if n < 10 then [DigitChar(n)]
    else
      var prefix := NatToDecimal(n / 10);
      assert (prefix + [DigitChar(n % 10)])[..|prefix|] == prefix;
      prefix + [DigitChar(n % 10)]
  }

  /** Decimal rendering of an integer, with a leading '-' when negative. */
  function IntToDecimal(n: int): (s: string)
    ensures |s| > 0
  {
    if n < 0 then "-" + NatToDecimal(-n) else NatToDecimal(n)
  }
}

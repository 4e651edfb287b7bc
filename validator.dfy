/** Custom request validation: the `strongpwd` rule and the messages shown
    for failed rules (validator/validator.go). */
module Validator {
  import opened Common

  predicate IsAsciiUpper(c: char) {
    'A' <= c <= 'Z'
  }

  predicate IsAsciiAlnum(c: char) {
    'a' <= c <= 'z' || 'A' <= c <= 'Z' || '0' <= c <= '9'
  }

  predicate NoNewline(s: string) {
    forall i :: 0 <= i < |s| ==> s[i] != '\n'
  }

  /** The part of a password that `^ ... $` spans: `$` (without the
      multi-line option) matches at the very end or just before one final
      newline, so a single trailing newline is not part of it. */
  function Line(p: string): (l: string)
    ensures l == p || (l + "\n" == p)
  {
    if |p| > 0 && p[|p| - 1] == '\n' then p[..|p| - 1] else p
  }

  /** `^(?=.*[A-Z])(?=.*[^a-zA-Z0-9]).{5,}$` over the password's runes.
      `.` matches anything but a newline, so the spanned line holds no
      newline, at least five runes and an ASCII capital; the character
      after the second `.*` may be any rune outside [a-zA-Z0-9] that the
      `.*` can reach, including that final newline. */
  predicate StrongPassword(p: string) {
    var l := Line(p);
    NoNewline(l) &&
    |l| >= 5 &&
    (exists i :: 0 <= i < |l| && IsAsciiUpper(l[i])) &&
    (exists i :: 0 <= i < |p| && !IsAsciiAlnum(p[i]))
  }

  /** Every accepted password has five or more runes, an ASCII capital and
      a rune outside [a-zA-Z0-9]; and conversely every newline-free password
      with those three is accepted. */
  lemma StrongPasswordCharacterised(p: string)
    ensures StrongPassword(p) ==>
      |p| >= 5 &&
      (exists i :: 0 <= i < |p| && IsAsciiUpper(p[i])) &&
      (exists i :: 0 <= i < |p| && !IsAsciiAlnum(p[i]))
    ensures NoNewline(p) ==>
      (StrongPassword(p) <==>
        |p| >= 5 &&
        (exists i :: 0 <= i < |p| && IsAsciiUpper(p[i])) &&
        (exists i :: 0 <= i < |p| && !IsAsciiAlnum(p[i])))
  {
    var l := Line(p);
    if StrongPassword(p) {
      var i :| 0 <= i < |l| && IsAsciiUpper(l[i]);
      assert p[i] == l[i];
    }
    if NoNewline(p) && |p| > 0 {
      assert p[|p| - 1] != '\n';
      assert l == p;
    }
  }

  /** The rule does not ask for a digit, although the message for it says
      "one number": a password with no digit at all is accepted. */
  lemma StrongPasswordNeedsNoDigit()
    ensures StrongPassword("Abcd!")
    ensures forall i :: 0 <= i < |"Abcd!"| ==> !IsDigit("Abcd!"[i])
    ensures MsgForTag(FieldError("Password", "strongpwd", "", "")) ==
      MsgWeakPassword
  {
    var p := "Abcd!";
    assert |p| == 5 && p[|p| - 1] == '!';
    assert Line(p) == p;
    assert IsAsciiUpper(p[0]);
    assert !IsAsciiAlnum(p[4]);
    assert p[0] == 'A' && p[1] == 'b' && p[2] == 'c' && p[3] == 'd';
  }

  /** A single trailing newline is outside the spanned line yet still counts
      as the required non-alphanumeric rune. */
  lemma TrailingNewlineIsTheSpecialRune()
    ensures StrongPassword("Abcde\n")
    ensures !StrongPassword("Abcde")
  {
    var p := "Abcde\n";
    assert Line(p) == "Abcde";
    assert IsAsciiUpper(Line(p)[0]);
    assert !IsAsciiAlnum(p[5]);
    var q := "Abcde";
    assert Line(q) == q;
    assert forall i :: 0 <= i < |q| ==> IsAsciiAlnum(q[i]);
  }

  /** A newline anywhere but at the very end makes the password fail. */
  lemma InnerNewlineRejected(p: string, k: nat)
    requires k + 1 < |p| && p[k] == '\n'
    ensures !StrongPassword(p)
  {
    assert Line(p)[k] == '\n';
  }

  /** The message for a password that fails `strongpwd`. */
  const MsgWeakPassword := "Invalid Password. Password should have at least 5 chars, one number, once special character !"

  /** The message shown for a failed validation rule. */
  function MsgForTag(fe: FieldError): (m: string)
    ensures fe.tag == "required" ==> m == "This field is required"
    ensures fe.tag == "email" ==> m == "Invalid email format"
    ensures fe.tag == "min" ==> m == "Minimum length is " + fe.param
    ensures fe.tag == "max" ==> m == "Maximum length is " + fe.param
    ensures fe.tag == "strongpwd" ==> m == MsgWeakPassword
    ensures fe.tag !in {"required", "email", "min", "max", "strongpwd"} ==> m == fe.text
  {
    match fe.tag
    case "required" => "This field is required"
    case "email" => "Invalid email format"
    case "min" => "Minimum length is " + fe.param
    case "max" => "Maximum length is " + fe.param
    case "strongpwd" => MsgWeakPassword
    case _ => fe.text
  }

  /** For the fixed-message tags the message depends on the tag alone;
      for `min` and `max` it ends with the rule's parameter. */
  lemma MsgForTagDependsOnTagAndParam(a: FieldError, b: FieldError)
    requires a.tag == b.tag
    ensures a.tag in {"required", "email", "strongpwd"} ==> MsgForTag(a) == MsgForTag(b)
    ensures a.tag in {"min", "max"} ==>
      |MsgForTag(a)| >= |a.param| && MsgForTag(a)[|MsgForTag(a)| - |a.param|..] == a.param
    ensures a.tag in {"min", "max"} && a.param == b.param ==> MsgForTag(a) == MsgForTag(b)
  {
  }
}

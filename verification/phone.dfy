/** The `Phone` field: a phone number is accepted when it is exactly ten
    decimal digits. Digits are the ASCII characters '0'..'9'. */
module Phone {
  import opened Wrappers
  import opened Errors

  predicate IsDigit(c: char) {
    '0' <= c <= '9'
  }

  /** What an acceptable phone number is, stated over its characters. */
  predicate IsValidPhone(s: string) {
    |s| == 10 && forall i :: 0 <= i < |s| ==> IsDigit(s[i])
  }

  /** Python's `str.isdigit` restricted to ASCII: non-empty and digits only,
      checked one character at a time. */
  function IsDigitString(s: string): (r: bool)
    ensures r <==> |s| > 0 && forall i :: 0 <= i < |s| ==> IsDigit(s[i])
  {
    if |s| == 0 then false
    else if |s| == 1 then IsDigit(s[0])
    else IsDigit(s[0]) && IsDigitString(s[1..])
  }

  /** The intended check of `Phone.validate`: the number comes back unchanged
      when it has ten characters, all digits, and is refused otherwise.
      (As declared, `validate` is a property setter, so the call sites never
      reach this check; see `PhoneList.AddPhoneAsWritten`.) */
  function Validate(s: string): (r: Result<string, Error>)
    ensures r.Ok? <==> IsValidPhone(s)
    ensures r.Ok? ==> r.value == s
    ensures r.Err? ==> r.error == InvalidPhone
  {
    if |s| != 10 || !IsDigitString(s) then Err(InvalidPhone) else Ok(s)
  }
}

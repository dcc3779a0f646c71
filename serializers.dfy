/**
 * `ISBNSerializer`: the `isbn` request field, a required string of 10 to
 * 13 characters, further restricted by `validate_isbn` to all digits and
 * length 10 or 13.
 */
module Serializers {
  import opened Wrappers
  import opened Text

  const IsbnMinLength: nat := 10
  const IsbnFieldMaxLength: nat := 13

  /** Why the field was refused. */
  datatype IsbnError =
    | Required     // no `isbn` in the request
    | Blank        // the empty string
    | TooLong      // more than 13 characters
    | TooShort     // fewer than 10 characters
    | NotDigits    // a character that is not a digit
    | WrongLength  // 11 or 12 digits

  /** The shape every accepted ISBN has: `^[0-9]{10}$` or `^[0-9]{13}$`. */
  predicate IsIsbn(s: string) {
    AllDigits(s) && (|s| == 10 || |s| == 13)
  }

  /** The field's own bounds (`min_length=10`, `max_length=13`, no blank). */
  function CheckBounds(value: string): (r: Option<IsbnError>)
    ensures r.None? <==> IsbnMinLength <= |value| <= IsbnFieldMaxLength
  {
    if value == "" then Some(Blank)
    else if |value| > IsbnFieldMaxLength then Some(TooLong)
    else if |value| < IsbnMinLength then Some(TooShort)
    else None
  }

  /** `validate_isbn`: digits only, then exactly 10 or 13 of them; an accepted value comes back unchanged. */
  function ValidateIsbn(value: string): (r: Result<string, IsbnError>)
    ensures r.Success? <==> IsIsbn(value)
    ensures r.Success? ==> r.value == value
    ensures !AllDigits(value) && value != "" ==> r == Failure(NotDigits)
  {
    if value == "" || !AllDigits(value) then Failure(NotDigits)
    else if |value| != 10 && |value| != 13 then Failure(WrongLength)
    else Success(value)
  }

  /**
   * `is_valid()` on the request data: the field must be present, within
   * its bounds, and pass `validate_isbn`. Exactly the ISBN-shaped values
   * are accepted, and they are returned unchanged.
   */
  function ValidateIsbnField(data: Option<string>): (r: Result<string, IsbnError>)
    ensures r.Success? <==> data.Some? && IsIsbn(data.value)
    ensures r.Success? ==> r.value == data.value
    ensures data.None? ==> r == Failure(Required)
    ensures data.Some? && !(IsbnMinLength <= |data.value| <= IsbnFieldMaxLength) ==> r.Failure? && r.error != NotDigits
  {
    match data
    case None => Failure(Required)
    case Some(value) =>
      match CheckBounds(value)
      case Some(e) => Failure(e)
      case None => ValidateIsbn(value)
  }

  /** Eleven or twelve digits are inside the field's bounds and still refused. */
  lemma ElevenOrTwelveDigitsRejected(value: string)
    requires AllDigits(value) && (|value| == 11 || |value| == 12)
    ensures CheckBounds(value).None?
    ensures ValidateIsbnField(Some(value)) == Failure(WrongLength)
  {
  }
}

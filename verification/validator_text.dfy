/**
 The validator seen from the text a client types. A password of `n`
 Unicode characters is between `n` and `2n` UTF-16 code units long, so the
 seven-unit rule is a rule on code units, not on characters: three
 characters are always too short, seven always long enough, and four to six
 pass only when some of them lie outside the Basic Multilingual Plane.
 */
module ValidatorText {
  import opened Wrappers
  import opened JavaStrings
  import opened Utf16
  import opened CreateUserRequests
  import opened CreateUserRequestValidator

  /** The request a client sends for the given username, password and confirmation text. */
  function FromText(username: string, password: string, confirm: Option<string>): (req: CreateUserRequest)
    ensures req.password.Some? && Decode(req.password.value) == Some(password)
    ensures confirm.Some? ==> req.confirmPassword.Some? && Decode(req.confirmPassword.value) == confirm
  {
    DecodeEncode(password);
    match confirm
    case None => CreateUserRequest(Some(Encode(username)), Some(Encode(password)), None)
    case Some(c) =>
      DecodeEncode(c);
      CreateUserRequest(Some(Encode(username)), Some(Encode(password)), Some(Encode(c)))
  }

  /** Accepted exactly when the password is seven code units or longer and the confirmation is the same text. */
  lemma TextAcceptedIff(username: string, password: string, confirm: Option<string>)
    ensures IsRequestValid(Some(FromText(username, password, confirm))) == Returned(true) <==>
      |Encode(password)| >= MinPasswordLength && confirm == Some(password)
  {
    if confirm.Some? {
      EncodeInjective(password, confirm.value);
    }
  }

  /** Three characters or fewer never reach seven code units. */
  lemma ShortTextRejected(username: string, password: string, confirm: Option<string>)
    requires |password| <= 3
    ensures IsRequestValid(Some(FromText(username, password, confirm))) == Returned(false)
  {
  }

  /** Seven characters or more always pass the length rule; the outcome is then the confirmation match. */
  lemma LongTextDecidedByConfirmation(username: string, password: string, confirm: Option<string>)
    requires |password| >= MinPasswordLength
    ensures IsRequestValid(Some(FromText(username, password, confirm))) == Returned(confirm == Some(password))
  {
    TextAcceptedIff(username, password, confirm);
  }

  /**
   Text of Basic Multilingual Plane characters only, such as ASCII, is
   accepted exactly when it has at least seven characters and the
   confirmation is the same text.
   */
  lemma BmpTextAcceptedIff(username: string, password: string, confirm: Option<string>)
    requires forall i :: 0 <= i < |password| ==> password[i] as int < SupplementaryBase
    ensures IsRequestValid(Some(FromText(username, password, confirm))) == Returned(true) <==>
      |password| >= MinPasswordLength && confirm == Some(password)
  {
    EncodeBmp(password);
    TextAcceptedIff(username, password, confirm);
  }

  /** Seven letters, confirmed, no username: accepted. */
  lemma SevenLettersAccepted()
    ensures IsRequestValid(Some(CreateUserRequest(None, Some(Encode("abcdefg")), Some(Encode("abcdefg"))))) == Returned(true)
  {
  }

  /** Six letters, confirmed, no username: rejected by the length rule. */
  lemma SixLettersRejected()
    ensures IsRequestValid(Some(CreateUserRequest(None, Some(Encode("abcdef")), Some(Encode("abcdef"))))) == Returned(false)
  {
  }

  /** Seven letters with the last one different in the confirmation, no username: rejected. */
  lemma OneLetterMismatchRejected()
    ensures IsRequestValid(Some(CreateUserRequest(None, Some(Encode("abcdefg")), Some(Encode("abcdefh"))))) == Returned(false)
  {
  }

  /** Registration of "user" with "a"/"a" is rejected; with "password"/"password" it is accepted. */
  lemma RegistrationExamples()
    ensures IsRequestValid(Some(FromText("user", "a", Some("a")))) == Returned(false)
    ensures IsRequestValid(Some(FromText("user", "password", Some("password")))) == Returned(true)
  {
  }

  /** Four characters outside the Basic Multilingual Plane are eight code units long, so they pass. */
  lemma FourSupplementaryCharactersAccepted()
    ensures IsRequestValid(Some(FromText("", "\U{1F600}\U{1F600}\U{1F600}\U{1F600}", Some("\U{1F600}\U{1F600}\U{1F600}\U{1F600}")))) == Returned(true)
  {
  }

}

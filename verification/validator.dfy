/**
 The registration-request validator. Two rules are applied in order and the
 first failure wins: the password must be at least seven code units long,
 and it must equal the confirmation exactly. The request is a value, so the
 validator cannot change it.
 */
module CreateUserRequestValidator {
  import opened Wrappers
  import opened JavaStrings
  import opened CreateUserRequests

  /** The shortest password, in UTF-16 code units, that the validator accepts. */
  const MinPasswordLength := 7

  /**
   What a call of the validator does: return a boolean, or throw the
   `NullPointerException` that `req.getPassword().length()` raises when the
   request or its password is null.
   */
  datatype Outcome = Returned(valid: bool) | ThrewNullPointer

  /** The validator, with its early returns in source order; `None` is a null request. */
  function IsRequestValid(req: Option<CreateUserRequest>): (r: Outcome)
    ensures r == ThrewNullPointer <==> req.None? || req.value.password.None?
    ensures r == Returned(true) <==>
      req.Some? && req.value.password.Some? &&
      |req.value.password.value| >= MinPasswordLength && req.value.confirmPassword == req.value.password
  {
    match req
    case None => ThrewNullPointer
    case Some(request) =>
      match request.password
      case None => ThrewNullPointer
      case Some(password) =>
        if |password| < MinPasswordLength then Returned(false)
        else if !Equals(password, request.confirmPassword) then Returned(false)
        else Returned(true)
  }

  /** A password shorter than seven code units is rejected whatever the confirmation is. */
  lemma ShortPasswordRejected(username: Option<JavaString>, password: JavaString, confirm: Option<JavaString>)
    requires |password| < MinPasswordLength
    ensures IsRequestValid(Some(CreateUserRequest(username, Some(password), confirm))) == Returned(false)
  {
  }

  /** A confirmation that differs from the password is rejected whatever the length. */
  lemma MismatchRejected(username: Option<JavaString>, password: JavaString, confirm: Option<JavaString>)
    requires confirm != Some(password)
    ensures IsRequestValid(Some(CreateUserRequest(username, Some(password), confirm))) == Returned(false)
  {
  }

  /** A null confirmation never equals the password, so it is always rejected. */
  lemma NullConfirmationRejected(username: Option<JavaString>, password: JavaString)
    ensures IsRequestValid(Some(CreateUserRequest(username, Some(password), None))) == Returned(false)
  {
  }

  /** The username is never read: changing it cannot change the outcome. */
  lemma UsernameIrrelevant(req: CreateUserRequest, username: Option<JavaString>)
    ensures IsRequestValid(Some(req.(username := username))) == IsRequestValid(Some(req))
  {
  }

}

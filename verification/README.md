# Registration-request validator

A Dafny model of the check the e-commerce backend runs on a user-registration
request before it creates the user. The request carries a username, a
password and a confirmation of the password. The validator accepts it only
if the password is at least seven UTF-16 code units (Java `char`s) long
and equals the confirmation exactly. The first rule that fails decides the rejection. The
username is never read.

Modules:

- `Wrappers` (`wrappers.dfy`): `Option`, which stands for a Java reference
  that may be `null`.
- `JavaStrings` (`java_strings.dfy`): a Java `String` as a sequence of UTF-16
  code units, and `String.equals` against an argument that may be null.
- `Utf16` (`utf16.dfy`): the encoding from Dafny text (Unicode scalar values)
  to code units, with its decoder. It relates a password of `n` characters to
  the `length()` the validator compares.
- `CreateUserRequests` (`create_user_request.dfy`): the request record with its
  three nullable fields.
- `CreateUserRequestValidator` (`validator.dfy`): `isRequestValid` and its
  properties over code units.
- `ValidatorText` (`validator_text.dfy`): the same properties for requests
  built from text, and the concrete cases from the repository's tests.

Modelling decisions:

- Java `String.length()` counts UTF-16 code units. A password is therefore a
  `seq<CodeUnit>` and its length is `|password|`. Unpaired surrogates are
  legal in a Java string, so a code unit is any value in `0..0xFFFF`.
- The request and all three of its fields may be null. A null request or a
  null password makes `req.getPassword().length()` throw
  `NullPointerException`. This is modelled as the outcome
  `ThrewNullPointer`, not excluded by a precondition. A null confirmation is
  rejected, because `equals(null)` is false.
- The order of the two rules cannot be observed: the result is their
  conjunction, and a null request or password throws at the first
  `getPassword()` call, before either rule decides.

## Model

| member | source | states |
|---|---|---|
| `CreateUserRequestValidator.IsRequestValid` | starter_code/src/main/java/com/example/demo/model/requests/validator/CreateUserRequestValidatorImpl.java:10-20 | throws exactly when the request or its password is null; returns true exactly when both are non-null, the password is at least 7 code units long, and the confirmation is the same string; otherwise returns false |
| `CreateUserRequestValidator.ShortPasswordRejected` | starter_code/src/main/java/com/example/demo/model/requests/validator/CreateUserRequestValidatorImpl.java:11-13 | a password shorter than 7 code units is rejected for every username and confirmation |
| `CreateUserRequestValidator.MismatchRejected` | starter_code/src/main/java/com/example/demo/model/requests/validator/CreateUserRequestValidatorImpl.java:15-17 | a confirmation different from the password is rejected whatever the password's length |
| `CreateUserRequestValidator.NullConfirmationRejected` | starter_code/src/main/java/com/example/demo/model/requests/validator/CreateUserRequestValidatorImpl.java:15-17 | a null confirmation is rejected for every password |
| `CreateUserRequestValidator.UsernameIrrelevant` | starter_code/src/main/java/com/example/demo/model/requests/validator/CreateUserRequestValidatorImpl.java:10-20 | replacing the username never changes the outcome |
| `JavaStrings.SameUnitsFrom` | starter_code/src/main/java/com/example/demo/model/requests/validator/CreateUserRequestValidatorImpl.java:15 | comparing two equally long strings unit by unit from index i is true exactly when their suffixes from i are equal |
| `JavaStrings.Equals` | starter_code/src/main/java/com/example/demo/model/requests/validator/CreateUserRequestValidatorImpl.java:15 | `password.equals(confirm)` is true exactly when the confirmation is non-null and holds the same code units |
| `Utf16.Encode` | starter_code/src/main/java/com/example/demo/model/requests/validator/CreateUserRequestValidatorImpl.java:11 | a text is exactly as many code units long as it has characters plus the number of its characters outside the Basic Multilingual Plane, so n characters take between n and 2n units |
| `Utf16.DecodeEncode` | starter_code/src/main/java/com/example/demo/model/requests/validator/CreateUserRequestValidatorImpl.java:15 | decoding the code units of a text gives back that text |
| `Utf16.EncodeInjective` | starter_code/src/main/java/com/example/demo/model/requests/validator/CreateUserRequestValidatorImpl.java:15 | two texts have equal code units exactly when they are the same text, so comparing code units compares the text |
| `ValidatorText.TextAcceptedIff` | starter_code/src/main/java/com/example/demo/model/requests/validator/CreateUserRequestValidatorImpl.java:10-19 | a request built from text is accepted exactly when the password encodes to at least 7 code units and the confirmation is the same text |
| `ValidatorText.BmpTextAcceptedIff` | starter_code/src/main/java/com/example/demo/model/requests/validator/CreateUserRequestValidatorImpl.java:10-19 | a password made only of Basic Multilingual Plane characters (ASCII included) is accepted exactly when it has at least 7 characters and the confirmation is the same text |
| `ValidatorText.ShortTextRejected` | starter_code/src/main/java/com/example/demo/model/requests/validator/CreateUserRequestValidatorImpl.java:11-13 | a password of at most 3 characters is always rejected |
| `ValidatorText.LongTextDecidedByConfirmation` | starter_code/src/main/java/com/example/demo/model/requests/validator/CreateUserRequestValidatorImpl.java:11-17 | a password of at least 7 characters is accepted exactly when the confirmation is the same text |
| `ValidatorText.FourSupplementaryCharactersAccepted` | starter_code/src/main/java/com/example/demo/model/requests/validator/CreateUserRequestValidatorImpl.java:11 | four characters outside the Basic Multilingual Plane count as 8 code units and are accepted when confirmed |
| `ValidatorText.SevenLettersAccepted` | starter_code/src/test/java/com/example/demo/model/requests/validator/CreateUserRequestValidatorImplTest.java:20-27 | "abcdefg" confirmed by "abcdefg", with a null username, is accepted |
| `ValidatorText.SixLettersRejected` | starter_code/src/test/java/com/example/demo/model/requests/validator/CreateUserRequestValidatorImplTest.java:30-37 | "abcdef" confirmed by "abcdef", with a null username, is rejected |
| `ValidatorText.OneLetterMismatchRejected` | starter_code/src/test/java/com/example/demo/model/requests/validator/CreateUserRequestValidatorImplTest.java:40-47 | "abcdefg" confirmed by "abcdefh", with a null username, is rejected |
| `ValidatorText.RegistrationExamples` | starter_code/src/test/java/com/example/demo/SareetaApplicationTests.java:57-81 | "user" with "a"/"a" is rejected and "user" with "password"/"password" is accepted |

## Left out

- The login filter that reads credentials as JSON, hands them to the authentication manager and signs a JWT with HMAC-SHA512. It consists of calls into Jackson, Spring Security and the auth0 JWT library, it reads the wall clock, and its constants class is not part of this model.
- The controller that turns a rejection into HTTP 400 without saving the user is not part of this model.
- The end-to-end HTTP and persistence tests (users, items, carts, orders). They are used only as evidence for validator cases.
- The builder, getters, setters and JSON annotations generated on the request. They are framework code generation with no logic.
- That the request is left unchanged is not stated as a contract. The Java class has setters, but the validator only calls its getters, so it cannot change the request; the model takes the request as a value.

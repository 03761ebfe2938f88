/**
 The registration request body: three nullable strings. The builder,
 getters, setters and JSON bindings generated around it are framework code
 and carry no logic.
 */
module CreateUserRequests {
  import opened Wrappers
  import opened JavaStrings

  datatype CreateUserRequest = CreateUserRequest(
    username: Option<JavaString>,
    password: Option<JavaString>,
    confirmPassword: Option<JavaString>)

}

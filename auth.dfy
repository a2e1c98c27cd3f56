/** The login handler (src/api/auth.ts). The user store's lookup by e-mail and
    the argon2 password check are parameters: `lookup` stands for
    getUserByEmail and `verify(password, hash)` for checkPasswordHash. */
module Auth {
  import opened Wrappers
  import opened Errors

  /** A row of the users table as getUserByEmail returns it; the timestamps
      are opaque values the handler only copies. */
  datatype User = User(
    id: string,
    email: string,
    createdAt: int,
    updatedAt: int,
    hashedPassword: string)

  /** The JSON body sent back on a successful login: a user without its hash. */
  datatype UserResponse = UserResponse(
    id: string,
    email: string,
    createdAt: int,
    updatedAt: int)

  /** The parsed request body; None stands for a field that is absent or JSON null. */
  datatype LoginParams = LoginParams(password: Option<string>, email: Option<string>)

  datatype JsonReply = JsonReply(status: int, body: UserResponse)

  const MissingFieldsMessage: string := "Missing required fields"
  const LoginFailedMessage: string := "Incorrect email or password"

  /** JavaScript truthiness of a string field: sent, and not the empty string. */
  predicate Provided(field: Option<string>)
    ensures Provided(field) <==> field != None && field != Some("")
    ensures Provided(field) ==> |field.value| >= 1
  {
    field.Some? && field.value != ""
  }

  /** The reply object: the user's id, e-mail and timestamps, copied as they are. */
  function ToUserResponse(user: User): (r: UserResponse)
    ensures r.id == user.id && r.email == user.email
    ensures r.createdAt == user.createdAt && r.updatedAt == user.updatedAt
  {
    UserResponse(user.id, user.email, user.createdAt, user.updatedAt)
  }

  /** Whether a login with these parameters succeeds, stated without the guard
      chain: both fields given, a user stored under the e-mail, and the password
      accepted against that user's hash. */
  ghost predicate Authenticates(
    params: LoginParams, lookup: string -> Option<User>, verify: (string, string) -> bool)
  {
    && Provided(params.password)
    && Provided(params.email)
    && lookup(params.email.value).Some?
    && verify(params.password.value, lookup(params.email.value).value.hashedPassword)
  }

  /** handlerLogin: the reply sent, or the error thrown. */
  function Login(
    params: LoginParams, lookup: string -> Option<User>, verify: (string, string) -> bool)
    : (r: Result<JsonReply, ApiError>)
    ensures r.Success? <==> Authenticates(params, lookup, verify)
    ensures r.Success? ==>
      r.value.status == 200 &&
      r.value.body == ToUserResponse(lookup(params.email.value).value)
    ensures r.Failure? ==>
      r.error == BadRequest(MissingFieldsMessage) ||
      r.error == UserNotAuthenticated(LoginFailedMessage)
    ensures r.Failure? ==>
      (r.error.BadRequest? <==> !Provided(params.password) || !Provided(params.email))
  {
    if !Provided(params.password) || !Provided(params.email) then
      Failure(BadRequest(MissingFieldsMessage))
    else
      match lookup(params.email.value)
      case None => Failure(UserNotAuthenticated(LoginFailedMessage))
      case Some(user) =>
        if !verify(params.password.value, user.hashedPassword) then
          Failure(UserNotAuthenticated(LoginFailedMessage))
        else
          Success(JsonReply(200, ToUserResponse(user)))
  }

  /** Missing fields are refused before the store or the hash is consulted:
      the outcome does not depend on either. */
  lemma LoginChecksFieldsFirst(
    params: LoginParams,
    lookup1: string -> Option<User>, verify1: (string, string) -> bool,
    lookup2: string -> Option<User>, verify2: (string, string) -> bool)
    requires !Provided(params.password) || !Provided(params.email)
    ensures Login(params, lookup1, verify1) == Login(params, lookup2, verify2)
              == Failure(BadRequest(MissingFieldsMessage))
  {
  }

  /** An unknown e-mail and a wrong password for a known e-mail give the very
      same error, so a client cannot tell which accounts exist. */
  lemma LoginFailuresIndistinguishable(
    params: LoginParams,
    lookupUnknown: string -> Option<User>, lookupKnown: string -> Option<User>,
    verify: (string, string) -> bool)
    requires Provided(params.password) && Provided(params.email)
    requires lookupUnknown(params.email.value).None?
    requires lookupKnown(params.email.value).Some?
    requires !verify(params.password.value, lookupKnown(params.email.value).value.hashedPassword)
    ensures Login(params, lookupUnknown, verify) == Login(params, lookupKnown, verify)
              == Failure(UserNotAuthenticated(LoginFailedMessage))
  {
  }

  /** The store is asked about the e-mail sent and nothing else, and the
      password is checked only against the hash of the user found for it: two
      stores and two checkers that agree there give the same outcome. */
  lemma LoginDependsOnlyOnThatUser(
    params: LoginParams,
    lookup1: string -> Option<User>, verify1: (string, string) -> bool,
    lookup2: string -> Option<User>, verify2: (string, string) -> bool)
    requires Provided(params.password) && Provided(params.email)
    requires lookup1(params.email.value) == lookup2(params.email.value)
    requires lookup1(params.email.value).Some? ==>
      var hash := lookup1(params.email.value).value.hashedPassword;
      verify1(params.password.value, hash) == verify2(params.password.value, hash)
    ensures Login(params, lookup1, verify1) == Login(params, lookup2, verify2)
  {
  }

  /** The reply never carries the stored hash: users who differ only in their
      hash, and whose passwords check alike, get identical replies. */
  lemma LoginReplyOmitsHash(
    params: LoginParams,
    lookup1: string -> Option<User>, lookup2: string -> Option<User>,
    verify: (string, string) -> bool)
    requires Provided(params.password) && Provided(params.email)
    requires lookup1(params.email.value).Some? && lookup2(params.email.value).Some?
    requires lookup2(params.email.value) ==
      Some(lookup1(params.email.value).value.(hashedPassword := lookup2(params.email.value).value.hashedPassword))
    requires verify(params.password.value, lookup1(params.email.value).value.hashedPassword) ==
             verify(params.password.value, lookup2(params.email.value).value.hashedPassword)
    ensures Login(params, lookup1, verify) == Login(params, lookup2, verify)
  {
  }
}

/** The decision flow of `authController`: `login`, `register` and `refreshToken`, with
    `validateLoginData` and `validateRegisterData`. The validators, the email-existence
    check and the JWT service are collaborators passed in as values. */
module AuthController {
  import opened JsValues
  import opened Requests
  import opened FieldValidation
  import opened Users
  import opened Outcomes

  const InvalidDataMessage := "Please enter valid data!"
  const WrongCredentialsMessage := "Email or password is wrong!"
  const EmailExistsMessage := "Email already exists!"
  const ForbiddenMessage := "Access is forbidden"
  /** Opening words of the message the database driver gives a duplicate `_id`; the rest
      of it (collection and key) is the driver's. */
  const DuplicateKeyMessage := "E11000 duplicate key error"
  /** The request header `refreshToken` reads. */
  const RefreshHeader := "refresh_token"

  /** `Please enter valid <key>!` */
  function InvalidFieldMessage(key: string): (m: string)
    ensures |m| == |key| + 20 && m[..19] == "Please enter valid " && m[19..|m| - 1] == key && m[|m| - 1] == '!'
  {
    "Please enter valid " + key + "!"
  }

  /** Distinct keys give distinct messages: the message names the refused key. */
  lemma InvalidFieldMessageNamesKey(k1: string, k2: string)
    requires InvalidFieldMessage(k1) == InvalidFieldMessage(k2)
    ensures k1 == k2
  {
    var m := InvalidFieldMessage(k1);
    assert k1 == m[19..|m| - 1];
  }

  type Token = string

  /** The token payload `{ _id }`: the only claim the controller hands the JWT service. */
  datatype Payload = Payload(id: string)

  /** `jwtService.getAccessToken` and `jwtService.getRefreshToken`, taken as opaque. */
  datatype Issuer = Issuer(accessToken: Payload -> Token, refreshToken: Payload -> Token)

  /** How `jwtService.refreshToken` settles: resolved with a value, or rejected. */
  datatype ServiceOutcome = Resolved(value: JsValue) | Rejected(error: Thrown)

  /** What the handler sends. */
  datatype Response =
    | Tokens(access_token: Token, refresh_token: Token)  // 200 `{ access_token, refresh_token }`
    | Sent(value: JsValue)                               // 200, the refresh service's value
    | BadRequest(message: string)                        // 400 `{ message }`
    | Forbidden(reason: Thrown)                          // 403 `{ message: reason }`

  /** The functions of `utils/validator` the controller calls, uninterpreted. */
  datatype Checks = Checks(
    validEmail: Validator,
    validPassword: Validator,
    validFullName: Validator,
    emailExists: JsValue -> bool)

  /** The `validators` table of `validateLoginData`. */
  function LoginTable(c: Checks): Table
  {
    map["email" := c.validEmail, "password" := c.validPassword]
  }

  /** The `validators` table of `validateRegisterData`. */
  function RegisterTable(c: Checks): Table
  {
    map["email" := c.validEmail, "password" := c.validPassword, "full_name" := c.validFullName]
  }

  /** The pair the JWT service issues for the payload `{ _id: id }`. */
  function TokensFor(issuer: Issuer, id: string): Response
  {
    Tokens(issuer.accessToken(Payload(id)), issuer.refreshToken(Payload(id)))
  }

  /** `validateLoginData`: the stored user the body's credentials identify, or the message
      of the error it throws. */
  function ValidateLoginData(body: Body, users: seq<User>, c: Checks): (r: Result<User, string>)
    ensures body.Falsy? ==> r == Err(InvalidDataMessage)
    ensures body.Object? && FirstRejected(LoginTable(c), body.fields).Some? ==>
      r == Err(InvalidFieldMessage(FirstRejected(LoginTable(c), body.fields).value))
    ensures r.Ok? ==>
      body.Object? && (forall i :: 0 <= i < |body.fields| ==> !Rejects(LoginTable(c), body.fields[i])) &&
      r.value in users && r.value.email == body.Get("email") && r.value.password == body.Get("password")
    ensures r.Err? && body.Object? && FirstRejected(LoginTable(c), body.fields).None? ==>
      r.error == WrongCredentialsMessage
  {
    if body.Falsy? then Err(InvalidDataMessage)
    else match FirstRejected(LoginTable(c), body.fields)
      case Some(key) => Err(InvalidFieldMessage(key))
      case None =>
        match FindByEmail(users, body.Get("email"))
        case None => Err(WrongCredentialsMessage)
        case Some(user) =>
          if user.password != body.Get("password") then Err(WrongCredentialsMessage)
          else Ok(user)
  }

  /** `login`: a token pair for the identified user, or 400 with the validation message. */
  function Login(body: Body, users: seq<User>, c: Checks, issuer: Issuer): (r: Response)
    ensures r.Tokens? || r.BadRequest?
    ensures r.Tokens? <==> ValidateLoginData(body, users, c).Ok?
    ensures r.Tokens? ==>
      exists i :: 0 <= i < |users| && users[i].email == body.Get("email") &&
        users[i].password == body.Get("password") && r == TokensFor(issuer, users[i].id)
    ensures r.Tokens? ==> r == TokensFor(issuer, ValidateLoginData(body, users, c).value.id)
    ensures r.BadRequest? ==> ValidateLoginData(body, users, c) == Err(r.message)
    ensures r.BadRequest? ==>
      r.message == InvalidDataMessage || r.message == WrongCredentialsMessage ||
      exists k :: k in LoginTable(c) && r.message == InvalidFieldMessage(k)
  {
    match ValidateLoginData(body, users, c)
    case Err(message) => BadRequest(message)
    case Ok(user) => TokensFor(issuer, user.id)
  }

  /** With unique emails, login succeeds exactly when some stored user has this email and
      exactly this password, and it answers with that user's tokens. */
  lemma LoginAcceptsExactlyStoredCredentials(body: Body, users: seq<User>, c: Checks, issuer: Issuer)
    requires EmailsUnique(users)
    requires body.Object? && FirstRejected(LoginTable(c), body.fields).None?
    ensures ValidateLoginData(body, users, c).Ok? <==>
      exists i :: 0 <= i < |users| && users[i].email == body.Get("email") && users[i].password == body.Get("password")
    ensures forall i :: 0 <= i < |users| && users[i].email == body.Get("email") && users[i].password == body.Get("password") ==>
      ValidateLoginData(body, users, c) == Ok(users[i]) && Login(body, users, c, issuer) == TokensFor(issuer, users[i].id)
  {
    forall i | 0 <= i < |users| && users[i].email == body.Get("email")
      ensures FindByEmail(users, body.Get("email")) == Some(users[i])
    {
      FindByEmailUnique(users, i);
    }
  }

  /** An unknown email and a known email with another password get the same answer. */
  lemma UnknownEmailLooksLikeWrongPassword(
    unknown: Body, wrong: Body, users: seq<User>, c: Checks, issuer: Issuer)
    requires unknown.Object? && FirstRejected(LoginTable(c), unknown.fields).None?
    requires wrong.Object? && FirstRejected(LoginTable(c), wrong.fields).None?
    requires !EmailTaken(users, unknown.Get("email"))
    requires EmailsUnique(users)
    requires exists i :: 0 <= i < |users| && users[i].email == wrong.Get("email") && users[i].password != wrong.Get("password")
    ensures Login(unknown, users, c, issuer) == Login(wrong, users, c, issuer) == BadRequest(WrongCredentialsMessage)
  {
    var i :| 0 <= i < |users| && users[i].email == wrong.Get("email") && users[i].password != wrong.Get("password");
    FindByEmailUnique(users, i);
  }

  /** `validateRegisterData`: None when it returns, else the message of what it throws. */
  function ValidateRegisterData(body: Body, c: Checks): (r: Option<string>)
    ensures body.Falsy? ==> r == Some(InvalidDataMessage)
    ensures body.Object? && FirstRejected(RegisterTable(c), body.fields).Some? ==>
      r == Some(InvalidFieldMessage(FirstRejected(RegisterTable(c), body.fields).value))
    ensures r == Some(EmailExistsMessage) ==>
      body.Object? && FirstRejected(RegisterTable(c), body.fields).None? && c.emailExists(body.Get("email"))
    ensures body.Object? && FirstRejected(RegisterTable(c), body.fields).None? && c.emailExists(body.Get("email")) ==>
      r == Some(EmailExistsMessage)
    ensures r.None? <==>
      body.Object? && (forall i :: 0 <= i < |body.fields| ==> !Rejects(RegisterTable(c), body.fields[i])) &&
      !c.emailExists(body.Get("email"))
  {
    if body.Falsy? then Some(InvalidDataMessage)
    else match FirstRejected(RegisterTable(c), body.fields)
      case Some(key) =>
        assert InvalidFieldMessage(key)[0] != EmailExistsMessage[0];
        Some(InvalidFieldMessage(key))
      case None =>
        if c.emailExists(body.Get("email")) then Some(EmailExistsMessage) else None
  }

  /** Registration checks `full_name` besides the two login fields: whatever it accepts,
      the login checks accept too. */
  lemma RegisterChecksIncludeLogin(body: Body, c: Checks)
    requires ValidateRegisterData(body, c).None?
    ensures FirstRejected(LoginTable(c), body.fields).None?
  {
    LargerTableRejectsMore(LoginTable(c), RegisterTable(c), body.fields);
  }

  /** The document `register` inserts: `{ _id, email, password, full_name }` from the body. */
  function NewUser(id: string, body: Body): User
  {
    User(id, body.Get("email"), body.Get("password"), body.Get("full_name"))
  }

  /** `register`: validates, then inserts the new document under `freshId` and answers with
      tokens for it; any failure answers 400 and leaves the collection as it was. */
  method Register(store: UserStore, body: Body, freshId: string, c: Checks, issuer: Issuer) returns (r: Response)
    requires store.Valid()
    modifies store
    ensures store.Valid()
    ensures r.Tokens? || r.BadRequest?
    ensures r.Tokens? <==> ValidateRegisterData(body, c).None? && !IdTaken(old(store.users), freshId)
    ensures r.Tokens? ==> store.users == old(store.users) + [NewUser(freshId, body)] && r == TokensFor(issuer, freshId)
    ensures r.Tokens? ==>
      forall i :: 0 <= i < |store.users| && store.users[i].id == freshId ==> i == |store.users| - 1
    ensures r.BadRequest? ==> store.users == old(store.users)
    ensures r.BadRequest? ==>
      r.message == if ValidateRegisterData(body, c).Some? then ValidateRegisterData(body, c).value else DuplicateKeyMessage
  {
    var verdict := ValidateRegisterData(body, c);
    if verdict.Some? {
      return BadRequest(verdict.value);
    }
    var inserted := store.InsertOne(NewUser(freshId, body));
    if !inserted {
      return BadRequest(DuplicateKeyMessage);
    }
    r := TokensFor(issuer, freshId);
  }

  /** When `isEmailExists` reports every stored email, a registration keeps emails unique. */
  lemma RegistrationKeepsEmailsUnique(users: seq<User>, body: Body, id: string, c: Checks)
    requires EmailsUnique(users)
    requires EmailTaken(users, body.Get("email")) ==> c.emailExists(body.Get("email"))
    requires ValidateRegisterData(body, c).None?
    ensures EmailsUnique(users + [NewUser(id, body)])
  {
    var s := users + [NewUser(id, body)];
    forall i, j | 0 <= i < j < |s| ensures s[i].email != s[j].email {
      if j == |users| {
        assert s[i] == users[i];
      } else {
        assert s[i] == users[i] && s[j] == users[j];
      }
    }
  }

  /** With the same condition on `isEmailExists`, the body that registered a user logs that
      user in: login returns exactly the inserted document. The body must carry both an
      email and a password, since the database stores an absent one as `null`, which no
      later lookup or strict comparison with `undefined` matches. */
  lemma RegisteredUserCanLogIn(users: seq<User>, body: Body, id: string, c: Checks, issuer: Issuer)
    requires body.Get("email") != Undefined && body.Get("password") != Undefined
    requires EmailTaken(users, body.Get("email")) ==> c.emailExists(body.Get("email"))
    requires ValidateRegisterData(body, c).None?
    ensures ValidateLoginData(body, users + [NewUser(id, body)], c) == Ok(NewUser(id, body))
    ensures Login(body, users + [NewUser(id, body)], c, issuer) == TokensFor(issuer, id)
  {
    RegisterChecksIncludeLogin(body, c);
    FindAppended(users, NewUser(id, body));
  }

  /** `(err && err.message) || err`: the error's message when it is an object with a truthy
      message, otherwise the thrown value itself. */
  function ReportedMessage(err: Thrown): (m: Thrown)
    ensures m == err <==> !(err.ErrorObject? && Truthy(err.message))
    ensures m != err ==> m == Primitive(err.message) && Truthy(m.value)
  {
    match err
    case ErrorObject(message) => if Truthy(message) then Primitive(message) else err
    case Primitive(_) => err
  }

  /** `!refreshToken` fails: the header is present and not empty. */
  predicate HasRefreshHeader(headers: map<string, string>)
  {
    RefreshHeader in headers && headers[RefreshHeader] != ""
  }

  /** `refreshToken`: 403 without a refresh header; otherwise what the JWT service makes of
      the header, a rejection becoming 403 with the reported message. */
  function RefreshToken(headers: map<string, string>, service: string -> ServiceOutcome): (r: Response)
    ensures r.Sent? || r.Forbidden?
    ensures !HasRefreshHeader(headers) ==> r == Forbidden(Primitive(Str(ForbiddenMessage)))
    ensures r.Sent? <==> HasRefreshHeader(headers) && service(headers[RefreshHeader]).Resolved?
    ensures r.Sent? ==> service(headers[RefreshHeader]) == Resolved(r.value)
    ensures HasRefreshHeader(headers) && service(headers[RefreshHeader]).Rejected? ==>
      r == Forbidden(ReportedMessage(service(headers[RefreshHeader]).error))
  {
    if !HasRefreshHeader(headers) then Forbidden(Primitive(Str(ForbiddenMessage)))
    else match service(headers[RefreshHeader])
      case Resolved(value) => Sent(value)
      case Rejected(err) => Forbidden(ReportedMessage(err))
  }

  /** Without a refresh header the answer does not depend on the JWT service at all. */
  lemma MissingHeaderSkipsService(headers: map<string, string>, s1: string -> ServiceOutcome, s2: string -> ServiceOutcome)
    requires !HasRefreshHeader(headers)
    ensures RefreshToken(headers, s1) == RefreshToken(headers, s2)
  {
  }
}

# Authentication controller: request validation and credential checks

This project models the authentication controller of a small Express/MongoDB backend
(`controllers/auth.controller.js`). It covers three handlers:

- `login` checks the body's fields and finds the stored user by email. It compares the
  password by strict equality and answers with an access/refresh token pair for `{ _id }`.
- `register` checks the body's fields, rejects an email that already exists and inserts
  `{ _id, email, password, full_name }` under a fresh id. It then answers with tokens for
  that id.
- `refreshToken` turns a missing `refresh_token` header away with 403. Otherwise it hands
  the header to the JWT service and reports a rejection as 403.

The field check is the controller's dispatch-table loop. It walks the body's properties in
enumeration order. The first property that has a validator and whose value is falsy or
fails that validator is refused with `Please enter valid <key>!`.

Collaborators are passed in as values:

- The validators and `isEmailExists` of `utils/validator` are uninterpreted functions
  (`Checks`).
- `jwtService.getAccessToken` and `getRefreshToken` are opaque functions of the payload
  (`Issuer`).
- `jwtService.refreshToken` is a function from the header to a resolved value or a thrown
  value.
- The users collection is a class, `UserStore`, whose field holds the documents in
  insertion order. `findOne` returns the earliest match. `insertOne` refuses a taken `_id`.
- The `uuidv4()` id is a parameter of `Register`.

Modules: `JsValues` (values, truthiness, thrown values), `Requests` (the body),
`FieldValidation` (the dispatch-table loop), `Users` (documents, lookup, the store),
`AuthController` (the handlers), `Outcomes` (Option and Result).

## Model

| member | source | states |
|---|---|---|
| FieldValidation.FirstRejected | controllers/auth.controller.js:113-119 | None exactly when no property with a validator is falsy or fails it; otherwise the key of the first such property in enumeration order, with every earlier property accepted |
| FieldValidation.OnlyValidatedKeysMatter | controllers/auth.controller.js:113-119 | removing every property that has no validator leaves the verdict and the key named unchanged |
| FieldValidation.ExtraKeyIgnored | controllers/auth.controller.js:113-119 | appending a property whose key has no validator does not change the verdict |
| FieldValidation.LargerTableRejectsMore | controllers/auth.controller.js:145-157 | a table holding the same validators plus more accepts only bodies the smaller table accepts |
| FieldValidation.FirstRejectedAsWritten | controllers/auth.controller.js:113-119 | the loop as JavaScript runs it, where `validators[key]` also finds Object.prototype methods: None exactly when no property is refused under that lookup, otherwise the key of the first refused property |
| FieldValidation.InheritedKeyRejected | controllers/auth.controller.js:114-116 | the body `{"constructor": ""}` is refused naming `constructor` as written, and accepted by the intended loop |
| FieldValidation.AsWrittenAgreesOffInheritedNames | controllers/auth.controller.js:113-119 | on bodies using no inherited method name, the loop as written and the intended loop give the same verdict |
| Requests.Lookup | controllers/auth.controller.js:125 | `data.key` is undefined when no property has the key, and the property's value when keys are distinct |
| Users.FindByEmail | controllers/auth.controller.js:124-126 | None exactly when no document has the email; otherwise the earliest document with it |
| Users.FindByEmailUnique | controllers/auth.controller.js:124-126 | with unique emails the lookup returns the one document carrying the email |
| Users.FindAppended | controllers/auth.controller.js:48-55 | a document whose email was not yet stored is what the lookup finds once it is appended |
| Users.UserStore.InsertOne | controllers/auth.controller.js:48-55 | appends the document exactly when its `_id` is not taken, else changes nothing; ids stay unique |
| AuthController.InvalidFieldMessage | controllers/auth.controller.js:116 | the message is `Please enter valid `, then the key, then `!` |
| AuthController.InvalidFieldMessageNamesKey | controllers/auth.controller.js:116 | two keys with the same message are the same key, so the message identifies the refused key |
| AuthController.ValidateLoginData | controllers/auth.controller.js:102-137 | a falsy body gives `Please enter valid data!`; a refused field gives its message; success returns a stored user with the body's email and exactly its password, all fields accepted; any other failure is `Email or password is wrong!` |
| AuthController.Login | controllers/auth.controller.js:10-32 | tokens exactly when validation succeeds, issued for `{ _id }` of exactly the user validation returned, a stored user with these credentials; otherwise 400 carrying exactly the message validation threw |
| AuthController.LoginAcceptsExactlyStoredCredentials | controllers/auth.controller.js:124-136 | with unique emails, login succeeds iff a stored user has this email and exactly this password, returning that user and its tokens |
| AuthController.UnknownEmailLooksLikeWrongPassword | controllers/auth.controller.js:128-134 | an unknown email and a wrong password give the identical 400 `Email or password is wrong!` |
| AuthController.ValidateRegisterData | controllers/auth.controller.js:139-162 | falsy body and refused fields give their messages; `Email already exists!` exactly when all fields (full_name included) pass and the email is reported as existing; returns iff the fields pass and the email is not reported as existing |
| AuthController.RegisterChecksIncludeLogin | controllers/auth.controller.js:145-149 | every body registration accepts passes the login field checks too |
| AuthController.Register | controllers/auth.controller.js:34-71 | tokens for `{ _id: freshId }` exactly when validation passes and the id is free, after appending `{ _id, email, password, full_name }`, which is then the only document with that id; any failure answers 400 and leaves the collection unchanged |
| AuthController.RegistrationKeepsEmailsUnique | controllers/auth.controller.js:159-161 | if `isEmailExists` reports every stored email, a successful registration keeps emails unique |
| AuthController.RegisteredUserCanLogIn | controllers/auth.controller.js:124-136 | under the same condition, a body carrying an email and a password that registered a user logs in as exactly the inserted document, with tokens for its id |
| AuthController.ReportedMessage | controllers/auth.controller.js:88 | the thrown value is reported unchanged unless it is an object with a truthy message, which is then reported instead |
| AuthController.RefreshToken | controllers/auth.controller.js:73-95 | a missing or empty header gives 403 `Access is forbidden`; otherwise the service's value is sent, or its rejection gives 403 with the reported message |
| AuthController.MissingHeaderSkipsService | controllers/auth.controller.js:74-82 | without the header the answer is the same whatever the JWT service would do |

## Left out

- jwt/jwt.service and middleware/jwt.middleware are not part of this model. Token signing, rotation, revocation and bearer validation are not modelled. The issuer is taken as a pure function of the payload, and `refreshToken`'s service as a function of the header.
- A rejection of `getRefreshToken` in `login` or `register` is not modelled. It happens outside the handlers' `try` and is not caught by the handler.
- AuthController.RefreshToken: the service is called as `jwtService.refreshToken(refreshToken, res)` and also receives the response object. That `res` argument is not modelled; the contract assumes the service does not write to the response itself, which would make the handler's own send a second one.
- The `validate` handler only echoes `req.user`, which the middleware sets. It is not modelled.
- connectDb, findOne and insertOne are I/O. A failure to connect or to query is not modelled. The only insert failure modelled is a duplicate `_id`.
- AuthController.Register: the 400 message for a duplicate `_id` is only the opening words of the driver's message. The driver's full text names the collection and the key.
- Storing and querying go through BSON, which turns `undefined` into `null`. A `null` filter also matches documents without the field. The model compares values as they are given.
- AuthController.RegisteredUserCanLogIn: requires the body to carry an email and a password. A body without a password registers, but the document then stores `null`, and login compares `null !== undefined`, so that user can never log in; the model, storing values as given, would let it.
- AuthController.ValidateLoginData, AuthController.Login, AuthController.ValidateRegisterData, AuthController.Register: these follow the corrected field loop (FieldValidation.FirstRejected), not the loop as written. On a body with a key named after an Object.prototype method (`{"constructor": ""}`), the source answers `Please enter valid constructor!` where the model goes on to the credential or email check; see the Findings table.
- AuthController.RegistrationKeepsEmailsUnique: requests are modelled one at a time, each as one atomic step. In the source, `register` awaits `isEmailExists` and then `insertOne`, and another request can run in between, so two concurrent registrations of one email can both pass the check and both insert. The source does not keep emails unique under concurrent registration, unless the database has a unique index on `email`, which nothing here shows.
- The model picks the earliest-inserted document when several share an email. The database leaves that choice unspecified.
- Body values are JSON scalars. Nested objects and arrays as property values, and the `__proto__` key, are not modelled. Numbers are exact reals, with no NaN or -0.
- `for...in` also walks enumerable properties inherited by the body. A JSON-parsed body has none, so the model lists only own properties.
- FieldValidation.FirstRejectedAsWritten: when an inherited method throws instead of returning, the resulting TypeError message is not modelled. Only the truthiness of its result is.
- `async`/`await`, the response objects and status codes are replaced by the `Response` value.

## Findings

| source | as written | input that shows it | evidently intended | confidence | as-written member | corrected member |
|---|---|---|---|---|---|---|
| controllers/auth.controller.js:114 | `validators[key]` on an object literal also finds methods inherited from Object.prototype (`constructor`, `toString`, `isPrototypeOf`, ...), so those keys are validated too | login or register body `{"constructor": ""}` answers 400 `Please enter valid constructor!` | only keys listed in the table are checked; other keys are ignored | medium, not executed | FieldValidation.InheritedKeyRejected | FieldValidation.OnlyValidatedKeysMatter |

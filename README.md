# User accounts controller: registration, sign-in, lookup, update, delete

This project models the REST controller `UserController` of a small Spring
user-account service. The controller serves five endpoints under `/auth`:
`register`, `signin`, `user/{id}` (get), `user/{id}` (update) and `user/{id}`
(delete). Its state is the user repository. Here that repository is a map from
generated ids to `ApplicationUser` records (username, email, password digest).

Files:

- `web.dfy` (module `Web`): the JSON reply (`Message` or `Error`), the servlet
  cookie, the exceptions that escape a handler, and the exact message texts.
- `accounts.dfy` (module `Accounts`): the stored record, the store, and the
  single-result finders `findByUsername` / `findByEmail` as `FindBy`.
- `operations.dfy` (module `Operations`): each endpoint as a function from the
  store before the request to the reply and the store after it. These
  functions carry the controller's promises as `ensures` clauses: the order of
  the registration checks, that failures write nothing, the merged sign-in
  error, the fixed cookie flags, and the one-record frames of update and delete.
- `user_controller.dfy` (module `Controller`): the class `UserController`. It
  holds mutable `users` and `nextId` fields and the injected collaborators.
  Each handler is a method proved to compute exactly the matching function in
  `Operations`. `Signin` and `GetUserById` only read the store; the other three
  declare `modifies this`.
- `properties.dfy` (module `Properties`): lemmas that relate several requests.
  - Any run of requests without an update keeps usernames and emails unique.
  - An update can break uniqueness (a concrete example).
  - Signing in after a successful registration succeeds.
  - An unknown name and a wrong password give the same reply.
  - The email does not matter once the username is taken.
  - A deleted record is gone.
  - The register/sign-in walk-through for alice and bob.

Collaborators are passed in as values:

- The password encoder (`encode`, `matches`) is a pair of function values.
  The BCrypt algorithm is not modelled. Where a lemma needs the encoder to
  accept the digest of a password, it requires `Faithful(encoder)`.
- The token provider is a function from the authenticated username to a token
  string.
- `SESSION_COOKIE_NAME` and `COOKIE_EXPIRATION_TIME` come from a constants
  class that is not part of this model. They are the `CookieSettings` value.
- Whether the repository's `save` returns the created record is the `saved`
  parameter of `Register`. When it does not, the model writes nothing.
- The repository assigns ids from a counter `nextId`. The invariant
  `IdsBelow` (every stored id is below `nextId`) makes each new id fresh.

Behaviour of the code worth knowing:

- Registration and sign-in only reject a missing (null) parameter
  (UserController.java:51 and :88). An empty username, email or password
  passes that check.
- The update handler does not re-check that usernames and emails stay unique.
  `Properties.UpdateCanBreakUnique` shows a store where an update produces a
  duplicate username.
- The lookup by id calls `getOne`, whose behaviour for a missing id is not
  defined in the controller. The model returns `None` for a missing id and
  claims no error reply.
- The finders `findByUsername` and `findByEmail` return a single account
  (UserController.java:52, 54, 89). The repository interface is not part of
  this model; from that single-entity return type the model infers Spring
  Data's behaviour of throwing when more than one record matches, and writes
  it as `Thrown(IncorrectResultSize)`. From a store with unique usernames and
  emails, only an update produces that case
  (`Properties.RunWithoutUpdatesKeepsUnique`).

## Model

| member | source | states |
|---|---|---|
| `Accounts.FindBy` | server/src/main/java/com/example/spring/server/controller/UserController.java:52-54 | the finder returns no record exactly when no account holds the value, and the account exactly when one account holds it (`HeldOnce`). It reports a duplicate exactly when two accounts hold it, and so never on a column that is unique |
| `Operations.Register` | server/src/main/java/com/example/spring/server/controller/UserController.java:46-80 | handles a missing field, then a username collision, then an email collision, then creation, each with its own message. A taken username replies "User with this username already exists" when one account holds it and throws only when two do; the email is looked at only once the username is free, with the same rule for "User with this email already exists". Every failure leaves the store and id counter unchanged. Success adds exactly one record under a fresh id, with the given username and email and `encode(password)` as the stored password, and replies "User successfully created". A save that returns nothing replies "Internal Server Error". These are the only possible replies |
| `Operations.Signin` | server/src/main/java/com/example/spring/server/controller/UserController.java:84-122 | a missing field replies "Invalid request". An unknown username replies "Invalid username or password". When one account holds the username, whatever the other rows hold, the reply is "User login successful" if its digest accepts the password and "Invalid username or password" otherwise. It throws exactly when two accounts hold the name. Success happens only when an accepting account exists. Exactly one cookie is added on success, with the configured name, the issued token, secure, httpOnly and the configured max age; otherwise none is added |
| `Operations.GetUserById` | server/src/main/java/com/example/spring/server/controller/UserController.java:126-128 | yields a record exactly when the id is stored, and then the stored record |
| `Operations.UpdateUser` | server/src/main/java/com/example/spring/server/controller/UserController.java:132-139 | on a stored id, sets that record's username and email to the request's. The record's id and password digest are kept, as are all other records and the set of ids. It returns the updated record. On a missing id it throws not-found with that id and changes nothing |
| `Operations.DeleteUser` | server/src/main/java/com/example/spring/server/controller/UserController.java:143-149 | removes exactly the given id and keeps every other record unchanged. It replies success when the id was stored, and not-found with that id (changing nothing) otherwise |
| `Controller.UserController.constructor` | server/src/main/java/com/example/spring/server/controller/UserController.java:32-42 | the controller starts with the given store, id counter and injected encoder, token provider and cookie settings |
| `Controller.UserController.Register` | server/src/main/java/com/example/spring/server/controller/UserController.java:46-80 | updating the store in place, the handler produces the reply and new store that `Operations.Register` gives for the old store, and keeps the id invariant |
| `Controller.UserController.Signin` | server/src/main/java/com/example/spring/server/controller/UserController.java:84-122 | without modifying the store, the reply and cookies are those of `Operations.Signin` on the current store |
| `Controller.UserController.GetUserById` | server/src/main/java/com/example/spring/server/controller/UserController.java:126-128 | without modifying the store, returns the `Operations.GetUserById` lookup |
| `Controller.UserController.UpdateUser` | server/src/main/java/com/example/spring/server/controller/UserController.java:132-139 | updating the one record in place, the reply and new store are those of `Operations.UpdateUser` on the old store |
| `Controller.UserController.DeleteUser` | server/src/main/java/com/example/spring/server/controller/UserController.java:143-149 | the reply and new store are those of `Operations.DeleteUser` on the old store |
| `Properties.RegisterKeepsUnique` | server/src/main/java/com/example/spring/server/controller/UserController.java:52-60 | registration preserves uniqueness of usernames and of emails, because it only creates an account whose username and email are both free |
| `Properties.RunWithoutUpdatesKeepsUnique` | server/src/main/java/com/example/spring/server/controller/UserController.java:44-149 | any sequence of register, sign-in, get and delete requests, handled one at a time, keeps usernames and emails unique |
| `Properties.UpdateCanBreakUnique` | server/src/main/java/com/example/spring/server/controller/UserController.java:132-138 | there is a store with unique usernames and emails on which a successful update leaves two accounts with the same username: update does not re-check uniqueness |
| `Properties.RegisterThenSignin` | server/src/main/java/com/example/spring/server/controller/UserController.java:56-109 | on any store and with a faithful encoder, signing in right after a successful registration with the same username and password succeeds. It sets exactly the session cookie carrying the token issued for that username |
| `Properties.SigninHidesWhichCheckFailed` | server/src/main/java/com/example/spring/server/controller/UserController.java:110-117 | an unknown username and a username held by one account but given a wrong password produce the identical reply "Invalid username or password" and no cookie, whatever else the two stores hold |
| `Properties.UsernameCheckIgnoresEmail` | server/src/main/java/com/example/spring/server/controller/UserController.java:52-55 | when the username is taken, registration's reply and resulting store do not depend on the email given: the email is never consulted |
| `Properties.DeleteThenGet` | server/src/main/java/com/example/spring/server/controller/UserController.java:143-148 | after a delete of an id, the lookup of that id yields no record |
| `Properties.AliceAndBob` | server/src/main/java/com/example/spring/server/controller/UserController.java:46-122 | on an empty store: registering alice succeeds. Registering bob with alice's email fails with "User with this email already exists" and adds nothing. alice signs in with her password and gets the session cookie. A wrong password gives "Invalid username or password" |

## Left out

- HTTP and Spring plumbing is not modelled: routing annotations, cross-origin settings, form parsing of the parameter map, `ResponseEntity`, HTTP status codes, JSON serialisation and the servlet response object. Only the request fields, the reply body, the cookies added and escaping exceptions are modelled.
- Operations.Register: the real encoder is BCrypt, whose digest is salted at random on every call and so is not a function of the password. The model fixes one representative digest `encode(password)` per password, so two registrations with the same password store equal digests here; no proved property depends on that, and the lemmas rely on the encoder only through `matches(raw, encode(raw))` (`Faithful`).
- The BCrypt algorithm is not modelled. It is a foreign library, so `encode` and `matches` are arbitrary function values.
- `authenticationManager.authenticate`, the security context and the JWT contents and signing are not modelled. These are foreign code. Authentication is taken to succeed for the checked username and password, and the token is an opaque function of the username. The model does not capture a rejection by the authentication manager after the password check.
- JPA behaviour beyond a map is not modelled: lazy proxies from `getOne`, merging of detached entities, transactions, and database constraints. The id generator is a counter.
- `Operations.GetUserById`: does not model what accessing a `getOne` proxy for a missing id does, because that is not defined in the controller. A missing id yields `None`.
- `Operations.UpdateUser`: does not model a request body whose username or email is null, or validation constraints on `ApplicationUser`, because that entity class is not part of this model. The request's username and email are strings.
- `Operations.Register`: the save failure is modelled as storing nothing. What a real repository would have persisted before returning nothing is not defined in the controller.
- Concurrency is not modelled. Each request runs atomically and alone, so the race between the existence checks and `save` is outside the model.
- Uniqueness is not claimed as an invariant of every operation. Update can break it, and only registration guards it.

/** Each endpoint of the user controller as a function of the store before the
    request: the reply it produces and the store it leaves behind. The class in
    module Controller is proved to compute exactly these. */
module Operations {
  import opened Web
  import opened Accounts

  /** The injected password encoder: a one-way `encode` and its check `matches(raw, digest)`. */
  datatype PasswordEncoder = PasswordEncoder(encode: string -> string, matches: (string, string) -> bool)

  /** The encoder's own promise: a digest accepts the password it was made from. */
  ghost predicate Faithful(encoder: PasswordEncoder) {
    forall raw :: encoder.matches(raw, encoder.encode(raw))
  }

  /** The configured session cookie name and lifetime in seconds. */
  datatype CookieSettings = CookieSettings(name: string, maxAge: int)

  /** The cookie a successful sign-in adds, carrying the issued token. */
  function SessionCookie(settings: CookieSettings, token: string): Cookie {
    Cookie(settings.name, token, true, true, settings.maxAge)
  }

  /** A handler's reply together with the repository state after it. */
  datatype Step<+T> = Step(reply: Outcome<T>, users: Users, nextId: Id)

  /** The reply of the sign-in handler and the cookies it added to the servlet response. */
  datatype SigninReply = SigninReply(reply: Outcome<Response>, cookies: seq<Cookie>)

  predicate AllPresent(username: Option<string>, email: Option<string>, password: Option<string>) {
    username.Some? && email.Some? && password.Some?
  }

  /** Some account with this username accepts this password. */
  predicate Authentic(users: Users, encoder: PasswordEncoder, username: string, password: string) {
    exists id :: id in users && users[id].username == username && encoder.matches(password, users[id].password)
  }

  /** POST /auth/register. `saved` is whether the repository's save hands back the
      created record; when it does the record is stored under the next generated id. */
  function Register(users: Users, nextId: Id, encoder: PasswordEncoder,
                    username: Option<string>, email: Option<string>, password: Option<string>,
                    saved: bool): (r: Step<Response>)
    requires IdsBelow(users, nextId)
    ensures IdsBelow(r.users, r.nextId)
    // only a created account changes the store
    ensures r.reply != Returned(Message(UserCreated)) ==> r.users == users && r.nextId == nextId
    // 1. a missing field
    ensures !AllPresent(username, email, password) ==> r.reply == Returned(Error(InvalidRequest))
    // 2. a username collision, decided before the email is looked at
    ensures AllPresent(username, email, password) && Taken(users, Username, username.value) ==>
              r.reply == if HeldOnce(users, Username, username.value)
                         then Returned(Error(UsernameExists))
                         else Thrown(IncorrectResultSize)
    // 3. an email collision, only once the username is free
    ensures AllPresent(username, email, password) && !Taken(users, Username, username.value) &&
            Taken(users, Email, email.value) ==>
              r.reply == if HeldOnce(users, Email, email.value)
                         then Returned(Error(EmailExists))
                         else Thrown(IncorrectResultSize)
    // 4. both free: create, or report the failed save
    ensures AllPresent(username, email, password) && !Taken(users, Username, username.value) &&
            !Taken(users, Email, email.value) ==>
              if saved then
                && r.reply == Returned(Message(UserCreated))
                && nextId !in users
                && r.users == users[nextId := ApplicationUser(username.value, email.value, encoder.encode(password.value))]
                && |r.users| == |users| + 1
              else
                r.reply == Returned(Error(InternalServerError))
    // every reply the handler can give
    ensures r.reply.Returned? ==>
              r.reply.value in {Error(InvalidRequest), Error(UsernameExists), Error(EmailExists),
                                Message(UserCreated), Error(InternalServerError)}
  {
    if !AllPresent(username, email, password) then
      Step(Returned(Error(InvalidRequest)), users, nextId)
    else
      match FindBy(users, Username, username.value)
      case Duplicated => Step(Thrown(IncorrectResultSize), users, nextId)
      case Unique(_) => Step(Returned(Error(UsernameExists)), users, nextId)
      case Absent =>
        match FindBy(users, Email, email.value)
        case Duplicated => Step(Thrown(IncorrectResultSize), users, nextId)
        case Unique(_) => Step(Returned(Error(EmailExists)), users, nextId)
        case Absent =>
          var user := ApplicationUser(username.value, email.value, encoder.encode(password.value));
          if saved then
            Step(Returned(Message(UserCreated)), users[nextId := user], nextId + 1)
          else
            Step(Returned(Error(InternalServerError)), users, nextId)
  }

  /** POST /auth/signin. `generateToken` is the token provider applied to the
      authenticated name. The store is only read. */
  function Signin(users: Users, encoder: PasswordEncoder, generateToken: string -> string,
                  settings: CookieSettings, username: Option<string>, password: Option<string>): (r: SigninReply)
    // a cookie is added exactly on success, and it is the session cookie with fixed flags
    ensures r.reply == Returned(Message(LoginSuccessful)) ==>
              username.Some? && r.cookies == [SessionCookie(settings, generateToken(username.value))]
    ensures r.reply != Returned(Message(LoginSuccessful)) ==> r.cookies == []
    // success needs an account with that name whose digest accepts the password
    ensures r.reply == Returned(Message(LoginSuccessful)) ==>
              username.Some? && password.Some? && Authentic(users, encoder, username.value, password.value)
    ensures username.None? || password.None? ==> r.reply == Returned(Error(InvalidRequest))
    // an unknown name gives the same reply as a wrong password
    ensures username.Some? && password.Some? && !Taken(users, Username, username.value) ==>
              r.reply == Returned(Error(InvalidCredentials))
    ensures username.Some? && password.Some? && HeldOnce(users, Username, username.value) ==>
              if Authentic(users, encoder, username.value, password.value)
              then r.reply == Returned(Message(LoginSuccessful))
              else r.reply == Returned(Error(InvalidCredentials))
    // the finder throws only when two accounts hold the name
    ensures r.reply == Thrown(IncorrectResultSize) <==>
              username.Some? && password.Some? &&
              Taken(users, Username, username.value) && !HeldOnce(users, Username, username.value)
    ensures r.reply.Returned? ==>
              r.reply.value in {Error(InvalidRequest), Error(InvalidCredentials), Message(LoginSuccessful)}
  {
    if username.None? || password.None? then
      SigninReply(Returned(Error(InvalidRequest)), [])
    else
      match FindBy(users, Username, username.value)
      case Duplicated => SigninReply(Thrown(IncorrectResultSize), [])
      case Absent => SigninReply(Returned(Error(InvalidCredentials)), [])
      case Unique(id) =>
        if encoder.matches(password.value, users[id].password) then
          SigninReply(Returned(Message(LoginSuccessful)), [SessionCookie(settings, generateToken(username.value))])
        else
          SigninReply(Returned(Error(InvalidCredentials)), [])
  }

  /** GET /auth/user/{userId}, as a plain lookup. */
  function GetUserById(users: Users, userId: Id): (r: Option<ApplicationUser>)
    ensures r.Some? <==> userId in users
    ensures r.Some? ==> r.value == users[userId]
  {
    if userId in users then Some(users[userId]) else None
  }

  /** PUT /auth/user/{userId}: overwrite username and email of one record. */
  function UpdateUser(users: Users, nextId: Id, userId: Id, request: ApplicationUser): (r: Step<ApplicationUser>)
    ensures r.nextId == nextId && r.users.Keys == users.Keys
    ensures forall id :: id in users && id != userId ==> r.users[id] == users[id]
    ensures userId in users ==>
              && r.users[userId].username == request.username
              && r.users[userId].email == request.email
              && r.users[userId].password == users[userId].password
              && r.reply == Returned(r.users[userId])
    ensures userId !in users ==> r.reply == Thrown(ResourceNotFound(userId)) && r.users == users
  {
    if userId in users then
      var user := users[userId].(username := request.username, email := request.email);
      Step(Returned(user), users[userId := user], nextId)
    else
      Step(Thrown(ResourceNotFound(userId)), users, nextId)
  }

  /** DELETE /auth/user/{userId}: remove one record. */
  function DeleteUser(users: Users, nextId: Id, userId: Id): (r: Step<()>)
    ensures r.nextId == nextId
    ensures r.users.Keys == users.Keys - {userId}
    ensures forall id :: id in r.users ==> r.users[id] == users[id]
    ensures r.reply == if userId in users then Returned(()) else Thrown(ResourceNotFound(userId))
  {
    if userId in users then
      Step(Returned(()), users - {userId}, nextId)
    else
      Step(Thrown(ResourceNotFound(userId)), users, nextId)
  }
}

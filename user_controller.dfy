/** The REST controller for /auth: a repository it updates in place and the
    injected collaborators (password encoder, token provider, cookie settings). */
module Controller {
  import opened Web
  import opened Accounts
  import Operations

  class UserController {
    /** The rows of the user repository, keyed by id. */
    var users: Users
    /** The id the repository's generator assigns to the next saved account. */
    var nextId: Id

    const passwordEncoder: Operations.PasswordEncoder
    const generateToken: string -> string
    const cookieSettings: Operations.CookieSettings

    ghost predicate Valid()
      reads this
    {
      IdsBelow(users, nextId)
    }

    constructor (users: Users, nextId: Id, passwordEncoder: Operations.PasswordEncoder,
                 generateToken: string -> string, cookieSettings: Operations.CookieSettings)
      requires IdsBelow(users, nextId)
      ensures Valid()
      ensures this.users == users && this.nextId == nextId
      ensures this.passwordEncoder == passwordEncoder && this.generateToken == generateToken
      ensures this.cookieSettings == cookieSettings
    {
      this.users := users;
      this.nextId := nextId;
      this.passwordEncoder := passwordEncoder;
      this.generateToken := generateToken;
      this.cookieSettings := cookieSettings;
    }

    /** POST /auth/register, updating the repository in place. What the reply and the
        new store mean is stated once, on `Operations.Register`. */
    method Register(username: Option<string>, email: Option<string>, password: Option<string>, saved: bool)
      returns (reply: Outcome<Response>)
      requires Valid()
      modifies this
      ensures Valid()
      ensures Operations.Step(reply, users, nextId) ==
              Operations.Register(old(users), old(nextId), passwordEncoder, username, email, password, saved)
    {
      if username.Some? && email.Some? && password.Some? {
        var byName := FindBy(users, Username, username.value);
        if byName.Absent? {
          var byEmail := FindBy(users, Email, email.value);
          if byEmail.Absent? {
            var user := ApplicationUser(username.value, email.value, passwordEncoder.encode(password.value));
            if saved {
              users := users[nextId := user];
              nextId := nextId + 1;
              reply := Returned(Message(UserCreated));
            } else {
              reply := Returned(Error(InternalServerError));
            }
          } else if byEmail.Unique? {
            reply := Returned(Error(EmailExists));
          } else {
            reply := Thrown(IncorrectResultSize);
          }
        } else if byName.Unique? {
          reply := Returned(Error(UsernameExists));
        } else {
          reply := Thrown(IncorrectResultSize);
        }
      } else {
        reply := Returned(Error(InvalidRequest));
      }
    }

    /** POST /auth/signin. Reads the store and never writes it; `cookies` are those
        added to the servlet response. Its promises are stated on `Operations.Signin`. */
    method Signin(username: Option<string>, password: Option<string>)
      returns (reply: Outcome<Response>, cookies: seq<Cookie>)
      ensures Operations.SigninReply(reply, cookies) ==
              Operations.Signin(users, passwordEncoder, generateToken, cookieSettings, username, password)
    {
      cookies := [];
      if username.Some? && password.Some? {
        var byName := FindBy(users, Username, username.value);
        if byName.Unique? {
          var isPasswordValid := passwordEncoder.matches(password.value, users[byName.id].password);
          if isPasswordValid {
            var jwt := generateToken(username.value);
            cookies := cookies + [Operations.SessionCookie(cookieSettings, jwt)];
            reply := Returned(Message(LoginSuccessful));
          } else {
            reply := Returned(Error(InvalidCredentials));
          }
        } else if byName.Absent? {
          reply := Returned(Error(InvalidCredentials));
        } else {
          reply := Thrown(IncorrectResultSize);
        }
      } else {
        reply := Returned(Error(InvalidRequest));
      }
    }

    /** GET /auth/user/{userId}; see `Operations.GetUserById`. */
    method GetUserById(userId: Id) returns (user: Option<ApplicationUser>)
      ensures user == Operations.GetUserById(users, userId)
    {
      user := if userId in users then Some(users[userId]) else None;
    }

    /** PUT /auth/user/{userId}, through the record's setters; the frame it keeps is
        stated on `Operations.UpdateUser`. */
    method UpdateUser(userId: Id, request: ApplicationUser) returns (reply: Outcome<ApplicationUser>)
      requires Valid()
      modifies this
      ensures Valid()
      ensures Operations.Step(reply, users, nextId) ==
              Operations.UpdateUser(old(users), old(nextId), userId, request)
    {
      if userId in users {
        var user := users[userId];
        user := user.(username := request.username);
        user := user.(email := request.email);
        users := users[userId := user];
        reply := Returned(user);
      } else {
        reply := Thrown(ResourceNotFound(userId));
      }
    }

    /** DELETE /auth/user/{userId}; the frame it keeps is stated on `Operations.DeleteUser`. */
    method DeleteUser(userId: Id) returns (reply: Outcome<()>)
      requires Valid()
      modifies this
      ensures Valid()
      ensures Operations.Step(reply, users, nextId) == Operations.DeleteUser(old(users), old(nextId), userId)
    {
      if userId in users {
        users := users - {userId};
        reply := Returned(());
      } else {
        reply := Thrown(ResourceNotFound(userId));
      }
    }
  }
}

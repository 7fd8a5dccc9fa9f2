/** Properties that relate several requests: which endpoints keep usernames and
    emails unique, signing in after registering, and the collapse of sign-in errors. */
module Properties {
  import opened Web
  import opened Accounts
  import opened Operations

  /** Usernames and emails are each unique across the store. */
  predicate UniqueAccounts(users: Users) {
    UniqueOn(users, Username) && UniqueOn(users, Email)
  }

  /** One request against the controller. */
  datatype Request =
    | RegisterRequest(username: Option<string>, email: Option<string>, password: Option<string>, saved: bool)
    | SigninRequest(username: Option<string>, password: Option<string>)
    | GetRequest(userId: Id)
    | UpdateRequest(userId: Id, body: ApplicationUser)
    | DeleteRequest(userId: Id)

  datatype Store = Store(users: Users, nextId: Id)

  /** The store after one request; sign-in and lookup leave it as it was. */
  function Apply(s: Store, encoder: PasswordEncoder, req: Request): (t: Store)
    requires IdsBelow(s.users, s.nextId)
    ensures IdsBelow(t.users, t.nextId)
    ensures req.SigninRequest? || req.GetRequest? ==> t == s
  {
    match req
    case RegisterRequest(u, e, p, saved) =>
      var r := Register(s.users, s.nextId, encoder, u, e, p, saved); Store(r.users, r.nextId)
    case SigninRequest(_, _) => s
    case GetRequest(_) => s
    case UpdateRequest(id, body) =>
      var r := UpdateUser(s.users, s.nextId, id, body); Store(r.users, r.nextId)
    case DeleteRequest(id) =>
      var r := DeleteUser(s.users, s.nextId, id); Store(r.users, r.nextId)
  }

  /** The store after a sequence of requests handled one at a time. */
  function Run(s: Store, encoder: PasswordEncoder, reqs: seq<Request>): (t: Store)
    requires IdsBelow(s.users, s.nextId)
    ensures IdsBelow(t.users, t.nextId)
    decreases |reqs|
  {
    if reqs == [] then s else Run(Apply(s, encoder, reqs[0]), encoder, reqs[1..])
  }

  predicate NoUpdates(reqs: seq<Request>) {
    forall i :: 0 <= i < |reqs| ==> !reqs[i].UpdateRequest?
  }

  /** Registration guards uniqueness: it only adds an account whose username and email are free. */
  lemma RegisterKeepsUnique(users: Users, nextId: Id, encoder: PasswordEncoder,
                            username: Option<string>, email: Option<string>, password: Option<string>, saved: bool)
    requires IdsBelow(users, nextId) && UniqueAccounts(users)
    ensures UniqueAccounts(Register(users, nextId, encoder, username, email, password, saved).users)
  {
  }

  /** Any run of requests without an update keeps usernames and emails unique. */
  lemma {:induction false} RunWithoutUpdatesKeepsUnique(s: Store, encoder: PasswordEncoder, reqs: seq<Request>)
    requires IdsBelow(s.users, s.nextId) && UniqueAccounts(s.users)
    requires NoUpdates(reqs)
    ensures UniqueAccounts(Run(s, encoder, reqs).users)
    decreases |reqs|
  {
    if reqs != [] {
      var t := Apply(s, encoder, reqs[0]);
      if reqs[0].RegisterRequest? {
        var RegisterRequest(u, e, p, saved) := reqs[0];
        RegisterKeepsUnique(s.users, s.nextId, encoder, u, e, p, saved);
      }
      assert UniqueAccounts(t.users);
      assert NoUpdates(reqs[1..]) by {
        forall i | 0 <= i < |reqs| - 1 ensures !reqs[1..][i].UpdateRequest? { assert reqs[1..][i] == reqs[i + 1]; }
      }
      RunWithoutUpdatesKeepsUnique(t, encoder, reqs[1..]);
    }
  }

  /** The update handler does not re-check uniqueness: renaming one account to
      another's username yields a store with a duplicated username. */
  lemma UpdateCanBreakUnique()
    ensures var users := map[1 := ApplicationUser("alice", "a@x.com", "h1"),
                             2 := ApplicationUser("bob", "b@x.com", "h2")];
            && UniqueAccounts(users)
            && UpdateUser(users, 3, 2, ApplicationUser("alice", "b@x.com", "")).reply.Returned?
            && !UniqueAccounts(UpdateUser(users, 3, 2, ApplicationUser("alice", "b@x.com", "")).users)
  {
    var users := map[1 := ApplicationUser("alice", "a@x.com", "h1"),
                     2 := ApplicationUser("bob", "b@x.com", "h2")];
    var after := UpdateUser(users, 3, 2, ApplicationUser("alice", "b@x.com", "")).users;
    assert after[1].username == after[2].username;
  }

  /** After a successful registration, signing in with the same name and password
      succeeds and issues the session cookie for that name. */
  lemma RegisterThenSignin(users: Users, nextId: Id, encoder: PasswordEncoder,
                           generateToken: string -> string, settings: CookieSettings,
                           username: string, email: string, password: string)
    requires IdsBelow(users, nextId)
    requires Faithful(encoder)
    requires Register(users, nextId, encoder, Some(username), Some(email), Some(password), true).reply
             == Returned(Message(UserCreated))
    ensures var after := Register(users, nextId, encoder, Some(username), Some(email), Some(password), true).users;
            Signin(after, encoder, generateToken, settings, Some(username), Some(password))
            == SigninReply(Returned(Message(LoginSuccessful)), [SessionCookie(settings, generateToken(username))])
  {
    var after := Register(users, nextId, encoder, Some(username), Some(email), Some(password), true).users;
    assert !Taken(users, Username, username);
    assert after == users[nextId := ApplicationUser(username, email, encoder.encode(password))];
    assert HeldOnce(after, Username, username) by {
      assert Get(after[nextId], Username) == username;
      forall i, j | i in after && j in after && Get(after[i], Username) == username && Get(after[j], Username) == username
        ensures i == j
      {
        assert i !in users && j !in users;
      }
    }
    assert encoder.matches(password, after[nextId].password);
    assert Authentic(after, encoder, username, password);
  }

  /** A sign-in with an unknown name and one with a known name but a wrong password
      give the same reply and set no cookie, whatever the stores hold otherwise. */
  lemma SigninHidesWhichCheckFailed(unknown: Users, known: Users, encoder: PasswordEncoder,
                                    generateToken: string -> string, settings: CookieSettings,
                                    username: string, password: string, wrong: string)
    requires !Taken(unknown, Username, username)
    requires HeldOnce(known, Username, username)
    requires !Authentic(known, encoder, username, wrong)
    ensures Signin(unknown, encoder, generateToken, settings, Some(username), Some(password))
            == Signin(known, encoder, generateToken, settings, Some(username), Some(wrong))
            == SigninReply(Returned(Error(InvalidCredentials)), [])
  {
  }

  /** The username check runs before the email is consulted: with a taken
      username the email given makes no difference to reply or store. */
  lemma UsernameCheckIgnoresEmail(users: Users, nextId: Id, encoder: PasswordEncoder,
                                  username: string, email1: string, email2: string,
                                  password: Option<string>, saved: bool)
    requires IdsBelow(users, nextId) && Taken(users, Username, username)
    ensures Register(users, nextId, encoder, Some(username), Some(email1), password, saved)
            == Register(users, nextId, encoder, Some(username), Some(email2), password, saved)
  {
  }

  /** A deleted record is no longer returned by the lookup. */
  lemma DeleteThenGet(users: Users, nextId: Id, userId: Id)
    ensures GetUserById(DeleteUser(users, nextId, userId).users, userId) == None
  {
  }

  /** The walk-through: register alice, register bob with alice's email, then
      sign in as alice with her password and with a wrong one. */
  lemma AliceAndBob(encoder: PasswordEncoder, generateToken: string -> string, settings: CookieSettings)
    requires Faithful(encoder)
    requires !encoder.matches("wrong", encoder.encode("pw1"))
    ensures var first := Register(map[], 0, encoder, Some("alice"), Some("a@x.com"), Some("pw1"), true);
            var second := Register(first.users, first.nextId, encoder, Some("bob"), Some("a@x.com"), Some("pw2"), true);
            && first.reply == Returned(Message(UserCreated))
            && second.reply == Returned(Error(EmailExists))
            && |second.users| == 1
            && Signin(second.users, encoder, generateToken, settings, Some("alice"), Some("pw1"))
               == SigninReply(Returned(Message(LoginSuccessful)), [SessionCookie(settings, generateToken("alice"))])
            && Signin(second.users, encoder, generateToken, settings, Some("alice"), Some("wrong"))
               == SigninReply(Returned(Error(InvalidCredentials)), [])
  {
  }
}

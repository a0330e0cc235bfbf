/**
 The passport side of the service: the `local` strategy's verify callback,
 the session (which holds only a user id), the per-request lookup of that id,
 and what `passport.authenticate` does with a verify callback's answer.
 bcrypt is a foreign library: its comparison is the `compare` parameter.
 */
module Auth {
  import opened Wrappers
  import opened Store
  import opened Http

  /** What `bcrypt.compare` hands its callback: an error, or whether the password matched. */
  datatype Verdict = Match | Mismatch | CompareError

  /**
   What a strategy's verify callback hands `cb`: a user row, a falsy user
   (`false` or `undefined`), or an error.
   */
  datatype AuthResult = Verified(user: User) | Unverified | VerifyError

  /** The `local` strategy: the first row with that email, then bcrypt on its stored hash. */
  function LocalVerify(users: seq<User>, username: string, password: string,
                       compare: (string, string) -> Verdict): (r: AuthResult)
    ensures r.Verified? ==>
      r.user in users && r.user.email == username && compare(password, r.user.password) == Match
    ensures r.VerifyError? ==>
      exists u :: u in users && u.email == username && compare(password, u.password) == CompareError
    ensures !EmailTaken(users, username) ==> r == Unverified
  {
    match First(users, ByEmail(username))
    case None => Unverified
    case Some(user) =>
      match compare(password, user.password)
      case Match => Verified(user)
      case Mismatch => Unverified
      case CompareError => VerifyError
  }

  /** With one row per email, the row with that email decides alone. */
  lemma LocalVerifyOfRow(users: seq<User>, u: User, password: string,
                         compare: (string, string) -> Verdict)
    requires UniqueEmails(users) && u in users
    ensures LocalVerify(users, u.email, password, compare) ==
      match compare(password, u.password)
      case Match => Verified(u)
      case Mismatch => Unverified
      case CompareError => VerifyError
  {
  }

  /**
   A freshly registered row is what `local` checks for its email: the login
   succeeds exactly when bcrypt accepts the password against the new hash.
   */
  lemma LoginAfterRegister(users: seq<User>, nextId: nat, email: string, hash: string,
                           password: string, compare: (string, string) -> Verdict)
    requires !EmailTaken(users, email)
    ensures LocalVerify(users + [User(nextId, email, hash)], email, password, compare) ==
      match compare(password, hash)
      case Match => Verified(User(nextId, email, hash))
      case Mismatch => Unverified
      case CompareError => VerifyError
  {
    FirstOfAppended(users, ByEmail(email), User(nextId, email, hash));
  }

  /**
   `new Strategy(verify)` from passport-local: a request whose username or
   password field is empty fails with "Missing credentials" before the verify
   callback runs; otherwise the callback decides.
   */
  function LocalStrategy(users: seq<User>, username: string, password: string,
                         compare: (string, string) -> Verdict): (r: AuthResult)
    ensures username == "" || password == "" ==> r == Unverified
    ensures username != "" && password != "" ==> r == LocalVerify(users, username, password, compare)
  {
    if username == "" || password == "" then Unverified
    else LocalVerify(users, username, password, compare)
  }

  /** `serializeUser`: the session stores the user's id and nothing else. */
  function Serialize(user: User): (id: nat)
    ensures id == user.id
  {
    user.id
  }

  /** `deserializeUser`: the row with that id, looked up again on every request; `false` when there is none. */
  function Deserialize(users: seq<User>, id: nat): (r: Option<User>)
    ensures r.Some? ==> r.value in users && r.value.id == id
    ensures r.None? <==> !HasUserWithId(users, id)
  {
    First(users, ById(id))
  }

  /** Deserializing a serialized row of the current table gives that row back. */
  lemma SessionRoundTrip(users: seq<User>, user: User)
    requires UniqueIds(users) && user in users
    ensures Deserialize(users, Serialize(user)) == Some(user)
  {
  }

  /**
   `req.user` for a request whose session holds `session`; `req.isAuthenticated()`
   holds exactly when this is a row.
   */
  function CurrentUser(users: seq<User>, session: Option<nat>): (r: Option<User>)
    ensures r.Some? <==> session.Some? && HasUserWithId(users, session.value)
    ensures r.Some? ==> r.value in users && r.value.id == session.value
  {
    match session
    case None => None
    case Some(id) => Deserialize(users, id)
  }

  /**
   `passport.authenticate` with `successRedirect: "/dashboard"` and
   `failureRedirect: "/login"`: a user is logged in (the session gets its
   serialized id), a falsy user is sent back to the login page, an error goes
   to Express's error handler.  The second component is the new session.
   */
  function Authenticate(result: AuthResult, session: Option<nat>): (r: (Reply, Option<nat>))
    ensures r.0 == Redirect(DashboardPage) <==> result.Verified?
    ensures result.Verified? ==> r.1 == Some(result.user.id)
    ensures result.Unverified? ==> r == (Redirect(LoginPage), session)
    ensures result.VerifyError? ==> r == (ServerError, session)
  {
    match result
    case Verified(user) => (Redirect(DashboardPage), Some(Serialize(user)))
    case Unverified => (Redirect(LoginPage), session)
    case VerifyError => (ServerError, session)
  }

  /** After a successful login, every later request resolves to the logged-in row. */
  lemma LoginEstablishesSession(users: seq<User>, user: User, session: Option<nat>)
    requires UniqueIds(users) && user in users
    ensures CurrentUser(users, Authenticate(Verified(user), session).1) == Some(user)
  {
  }
}

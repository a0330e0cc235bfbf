/**
 The server's state, the `users` and `urls` tables, and the handlers that
 read and write them: `POST /register`, `POST /login` with the `local`
 strategy, the `google` strategy's verify callback, `POST /submit` and
 `POST /delete`.  Each handler runs atomically; the serial column of `users`
 is the counter `nextId`, and the codes `shortid.generate()` would produce are
 parameters.
 */
module App {
  import opened Wrappers
  import opened Store
  import opened Http
  import opened Auth
  import opened Routes

  /** The identity Google reports: the profile id and the account's email. */
  datatype Profile = Profile(id: string, email: string)

  class Server {
    var users: seq<User>
    var urls: seq<Url>
    /** The value the `users.id` serial column hands to the next insert. */
    var nextId: nat

    ghost predicate Valid()
      reads this
    {
      Consistent(users, urls, nextId)
    }

    constructor ()
      ensures Valid()
      ensures users == [] && urls == [] && nextId == 1
    {
      users, urls, nextId := [], [], 1;
    }

    /** `INSERT INTO users (email, password)`: a new row under the next serial id. */
    method InsertUser(email: string, password: string)
      requires Valid() && !EmailTaken(users, email)
      modifies this
      ensures Valid()
      ensures users == old(users) + [User(old(nextId), email, password)]
      ensures urls == old(urls) && nextId == old(nextId) + 1
    {
      var row := User(nextId, email, password);
      users, nextId := users + [row], nextId + 1;
      assert forall r: Url :: HasUserWithId(old(users), r.userId) ==> HasUserWithId(users, r.userId);
    }

    /**
     `POST /register`: an email that already has a row is answered "already
     registered" and nothing changes; otherwise bcrypt hashes the password
     and a row (email, hash) is inserted.  A hashing error is only logged.
     */
    method Register(email: string, password: string, bcryptHash: string -> Option<string>)
      returns (reply: Reply)
      requires Valid()
      modifies this
      ensures Valid()
      ensures urls == old(urls)
      ensures old(EmailTaken(users, email)) ==>
        reply == Send(200, AlreadyRegisteredText) && users == old(users) && nextId == old(nextId)
      ensures !old(EmailTaken(users, email)) && bcryptHash(password).None? ==>
        reply == NoReply && users == old(users) && nextId == old(nextId)
      ensures !old(EmailTaken(users, email)) && bcryptHash(password).Some? ==>
        && reply == Redirect(DashboardPage)
        && users == old(users) + [User(old(nextId), email, bcryptHash(password).value)]
        && nextId == old(nextId) + 1
    {
      var result := Where(users, ByEmail(email));
      if |result| > 0 {
        assert result[0] in result;
        reply := Send(200, AlreadyRegisteredText);
      } else {
        assert forall u :: u in users ==> u !in result;
        match bcryptHash(password)
        case None =>
          reply := NoReply;
        case Some(hash) =>
          InsertUser(email, hash);
          reply := Redirect(DashboardPage);
      }
    }

    /**
     `POST /login` through the `local` strategy.  Nothing is written.  An
     empty username or password is refused before any lookup; otherwise the
     answer is the dashboard exactly when the row with that email exists and
     bcrypt accepts the password against its stored hash, and only then does
     the session change, to that row's id.  A bcrypt error on that row goes
     to Express's error handler; every other failure returns to the login page.
     */
    method Login(username: string, password: string, compare: (string, string) -> Verdict,
                 session: Option<nat>)
      returns (reply: Reply, session': Option<nat>)
      requires Valid()
      ensures username == "" || password == "" ==> reply == Redirect(LoginPage) && session' == session
      ensures reply == Redirect(DashboardPage) <==>
        username != "" && password != "" &&
        exists u :: u in users && u.email == username && compare(password, u.password) == Match
      ensures reply == ServerError <==>
        username != "" && password != "" &&
        exists u :: u in users && u.email == username && compare(password, u.password) == CompareError
      ensures reply == Redirect(DashboardPage) || reply == Redirect(LoginPage) || reply == ServerError
      ensures reply == Redirect(DashboardPage) ==>
        exists u :: u in users && u.email == username && session' == Some(u.id) &&
                    CurrentUser(users, session') == Some(u)
      ensures reply != Redirect(DashboardPage) ==> session' == session
    {
      var result := LocalStrategy(users, username, password, compare);
      var outcome := Authenticate(result, session);
      reply, session' := outcome.0, outcome.1;
      if result.Verified? {
        LoginEstablishesSession(users, result.user, session);
      } else if username != "" && password != "" {
        forall u | u in users && u.email == username
          ensures compare(password, u.password) == (if result.VerifyError? then CompareError else Mismatch)
        {
          LocalVerifyOfRow(users, u, password, compare);
        }
      }
    }

    /**
     The `google` strategy's verify callback.  A known email yields its
     existing row.  An unseen email gets one new row (email, profile id);
     the insert returns no row, so the callback hands on `undefined`.
     */
    method GoogleVerify(profile: Profile) returns (result: AuthResult)
      requires Valid()
      modifies this
      ensures Valid()
      ensures urls == old(urls)
      ensures old(EmailTaken(users, profile.email)) ==>
        && users == old(users) && nextId == old(nextId)
        && result.Verified? && result.user in users && result.user.email == profile.email
      ensures !old(EmailTaken(users, profile.email)) ==>
        && users == old(users) + [User(old(nextId), profile.email, profile.id)]
        && nextId == old(nextId) + 1
        && result == Unverified
    {
      var found := First(users, ByEmail(profile.email));
      if found.None? {
        InsertUser(profile.email, profile.id);
        result := Unverified;
      } else {
        result := Verified(found.value);
      }
    }

    /**
     `POST /submit`, which does not check authentication: without a session
     user, reading `req.user.email` throws inside the async handler before
     any query, so nothing is written and the handler produces no reply of
     its own.  Otherwise
     a row of the user's email for that link is reused, else one row (user
     id, new code, link) is inserted; either way the user then owns exactly
     one row for the link.
     */
    method Submit(session: Option<nat>, link: string, newCode: string) returns (reply: Reply)
      requires Valid()
      modifies this
      ensures Valid()
      ensures users == old(users) && nextId == old(nextId)
      ensures CurrentUser(users, session).None? ==> reply == NoReply && urls == old(urls)
      ensures CurrentUser(users, session).Some? ==>
        var id := session.value;
        && reply == Redirect(DashboardPage)
        && (old(exists x :: x in urls && x.userId == id && x.originalUrl == link) ==> urls == old(urls))
        && (!old(exists x :: x in urls && x.userId == id && x.originalUrl == link) ==>
              urls == old(urls) + [Url(id, newCode, link)])
        && |Where(urls, OwnedWithLink(id, link))| == 1
    {
      var current := CurrentUser(users, session);
      if current.None? {
        reply := NoReply;
        return;
      }
      var user := current.value;
      var result := SubmitJoin(users, urls, user.email, link);
      JoinFindsOwnRows(users, urls, user, link);
      var code: string;
      if |result| > 0 {
        code := result[0].shortKey;
        assert result[0] in result;
        AtMostOneRowPerLink(urls, user.id, link);
        assert result[0] in Where(urls, OwnedWithLink(user.id, link));
      } else {
        code := newCode;
        InsertUrl(user, code, link);
      }
      reply := Redirect(DashboardPage);
    }

    /** `INSERT INTO urls (user_id, short_key, original_url)` for a user who has no row for that link. */
    method InsertUrl(user: User, code: string, link: string)
      requires Valid() && user in users
      requires forall x :: x in urls ==> !(x.userId == user.id && x.originalUrl == link)
      modifies this
      ensures Valid()
      ensures urls == old(urls) + [Url(user.id, code, link)]
      ensures users == old(users) && nextId == old(nextId)
      ensures |Where(urls, OwnedWithLink(user.id, link))| == 1
    {
      var row := Url(user.id, code, link);
      AppendNewLink(urls, row);
      urls := urls + [row];
      assert forall x :: x in urls ==> x in old(urls) || x == row;
    }

    /**
     `POST /delete`: every row with that short code goes, whoever owns it and
     whether or not anyone is logged in; all other rows stay.
     */
    method Delete(code: string) returns (reply: Reply)
      requires Valid()
      modifies this
      ensures Valid()
      ensures users == old(users) && nextId == old(nextId)
      ensures urls == Where(old(urls), KeyIsNot(code))
      ensures forall x :: x in old(urls) && x.shortKey == code ==> x !in urls
      ensures forall x: Url :: x.shortKey != code ==> multiset(urls)[x] == multiset(old(urls))[x]
      ensures reply == Redirect(DashboardPage)
    {
      urls := Where(urls, KeyIsNot(code));
      reply := Redirect(DashboardPage);
    }
  }
}
